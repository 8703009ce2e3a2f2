/**
 The CRL source under concurrency: one reload goroutine and any number of lookups, at the granularity of
 single reads and writes. The read-write lock guards the three CRL fields; `loaded` and the digest are outside it.
 */
module FileProtocol {
  import opened Types
  import opened SerialText
  import opened CrlSource
  import opened CrlReload

  /** A lookup inside `GetStatus`, with the locals it has read so far. */
  datatype Look =
    | Called(serial: int, issuer: Option<Name>)
    | SawLoaded(serial: int, issuer: Option<Name>)
    | Locked(serial: int, issuer: Option<Name>)                                 // holds the read lock
    | ReadClock(serial: int, issuer: Option<Name>, now: Time)
    | ReadWindow(serial: int, issuer: Option<Name>, now: Time, thisUpdate: Time, nextUpdate: Time)
    | ReadEntry(serial: int, issuer: Option<Name>, now: Time, thisUpdate: Time, nextUpdate: Time,
                entry: Option<CrlEntry>)
    | Unlocked(serial: int, issuer: Option<Name>, now: Time, thisUpdate: Time, nextUpdate: Time,
               entry: Option<CrlEntry>)
    | Finished(serial: int, issuer: Option<Name>, at: Option<Time>, result: Result<CertStatus>)

  predicate Reading(l: Look) { l.Locked? || l.ReadClock? || l.ReadWindow? || l.ReadEntry? }

  /**
   The reload goroutine inside one tick. `base` records the state when the tick began; `b` are the bytes
   read and `crl` the list being installed.
   */
  datatype Reload =
    | Idle
    | HaveBytes(base: Core, b: Bytes)
    | Comparing(base: Core, b: Bytes, same: bool)           // digest compared, `loaded` not yet consulted
    | Parsing(base: Core, b: Bytes)
    | Parsed(base: Core, b: Bytes, crl: Crl)                // wants the write lock
    | Writing(base: Core, b: Bytes, crl: Crl, done: nat)    // holds it; `done` of three fields written
    | Swapped(base: Core, b: Bytes, crl: Crl)               // unlocked; `loaded` not yet set
    | Armed(base: Core, b: Bytes, crl: Crl)                 // `loaded` set; digest not yet stored
    | Checking(base: Core, read: ReadOutcome)               // about to run checkExpiry
    | Failing(base: Core, read: ReadOutcome)                // about to run markUnhealthy

  datatype State = State(
    now: Time,
    revoked: map<string, CrlEntry>,
    thisUpdate: Time,
    nextUpdate: Time,
    loaded: bool,
    lastHash: Digest,
    expiredLogged: bool,
    log: seq<Line>,
    reload: Reload,
    looks: map<Thread, Look>)

  function Gen(s: State): Generation { Generation(s.revoked, s.thisUpdate, s.nextUpdate) }

  function CoreOf(s: State): Core { Core(Gen(s), s.loaded, s.lastHash, s.expiredLogged, s.log) }

  predicate WriteLocked(s: State) { s.reload.Writing? }

  ghost predicate ReadLocked(s: State) { exists t: Thread :: t in s.looks && Reading(s.looks[t]) }

  // ---- Steps of a lookup ----

  datatype LookStep =
    | Call(serial: int, issuer: Option<Name>)
    | Cancel
    | TestLoaded
    | RLock
    | TakeClock
    | TakeWindow
    | TakeEntry
    | RUnlock
    | Finish

  predicate LookEnabled(s: State, t: Thread, a: LookStep) {
    if a.Call? then t !in s.looks
    else
      && t in s.looks
      && match a
         case Cancel => s.looks[t].Called?
         case TestLoaded => s.looks[t].Called?
         case RLock => s.looks[t].SawLoaded? && !WriteLocked(s)
         case TakeClock => s.looks[t].Locked?
         case TakeWindow => s.looks[t].ReadClock?
         case TakeEntry => s.looks[t].ReadWindow?
         case RUnlock => s.looks[t].ReadEntry?
         case Finish => s.looks[t].Unlocked?
         case Call(_, _) => false
  }

  /** The tail of `GetStatus`, computed from the locals alone. */
  function Conclude(cfg: Config, l: Look): Result<CertStatus>
    requires l.Unlocked?
  {
    if !UsableAt(l.thisUpdate, l.nextUpdate, cfg.grace, l.now) then Err(SourceUnhealthy)
    else if l.issuer.None? then Err(IssuerMissing)
    else if l.issuer.value != cfg.subject then Err(IssuerMismatch)
    else
      match l.entry
      case Some(e) =>
        Ok(CertStatus(Revoked, Some(RevocationInfo(e.revokedAt, ReasonCode(e.extensions))), l.nextUpdate))
      case None => Ok(CertStatus(Good, None, l.nextUpdate))
  }

  function Find(revoked: map<string, CrlEntry>, serial: int): Option<CrlEntry> {
    if Decimal(serial) in revoked then Some(revoked[Decimal(serial)]) else None
  }

  function NextLook(cfg: Config, s: State, t: Thread, a: LookStep): Look
    requires LookEnabled(s, t, a)
  {
    if a.Call? then Called(a.serial, a.issuer)
    else
      var l := s.looks[t];
      match a
      case Cancel => Finished(l.serial, l.issuer, None, Err(Cancelled))
      case TestLoaded =>
        if s.loaded then SawLoaded(l.serial, l.issuer)
        else Finished(l.serial, l.issuer, None, Err(SourceUnhealthy))
      case RLock => Locked(l.serial, l.issuer)
      case TakeClock => ReadClock(l.serial, l.issuer, s.now)
      case TakeWindow => ReadWindow(l.serial, l.issuer, l.now, s.thisUpdate, s.nextUpdate)
      case TakeEntry =>
        ReadEntry(l.serial, l.issuer, l.now, l.thisUpdate, l.nextUpdate, Find(s.revoked, l.serial))
      case RUnlock => Unlocked(l.serial, l.issuer, l.now, l.thisUpdate, l.nextUpdate, l.entry)
      case Finish => Finished(l.serial, l.issuer, Some(l.now), Conclude(cfg, l))
  }

  // ---- Steps of the reload goroutine ----

  datatype ReloadStep =
    | ReadFile(read: ReadOutcome)
    | Compare
    | Decide
    | Parse
    | Lock
    | Write
    | Unlock
    | Arm
    | StoreHash
    | CheckExpiry
    | MarkUnhealthy

  ghost predicate ReloadEnabled(s: State, a: ReloadStep) {
    match a
    case ReadFile(_) => s.reload.Idle?
    case Compare => s.reload.HaveBytes?
    case Decide => s.reload.Comparing?
    case Parse => s.reload.Parsing?
    case Lock => s.reload.Parsed? && !ReadLocked(s)
    case Write => s.reload.Writing? && s.reload.done < 3
    case Unlock => s.reload.Writing? && s.reload.done == 3
    case Arm => s.reload.Swapped?
    case StoreHash => s.reload.Armed?
    case CheckExpiry => s.reload.Checking?
    case MarkUnhealthy => s.reload.Failing?
  }

  ghost function AfterReload(cfg: Config, s: State, a: ReloadStep): (after: State)
    requires ReloadEnabled(s, a)
    ensures after.looks == s.looks && after.now == s.now
  {
    var r := s.reload;
    match a
    case ReadFile(ReadError) => s.(reload := Failing(CoreOf(s), ReadError))
    case ReadFile(ReadOk(b)) => s.(reload := HaveBytes(CoreOf(s), b))
    case Compare =>
      s.(reload := if cfg.isUrl then Parsing(r.base, r.b) else Comparing(r.base, r.b, cfg.digest(r.b) == s.lastHash))
    case Decide =>
      s.(reload := if r.same && s.loaded then Checking(r.base, ReadOk(r.b)) else Parsing(r.base, r.b))
    case Parse =>
      var loaded := Load(cfg, r.b);
      s.(reload := if loaded.Ok? then Parsed(r.base, r.b, loaded.value) else Failing(r.base, ReadOk(r.b)))
    case Lock => s.(reload := Writing(r.base, r.b, r.crl, 0))
    case Write =>
      var r' := r.(done := r.done + 1);
      if r.done == 0 then s.(revoked := IndexOf(r.crl.entries), reload := r')
      else if r.done == 1 then s.(thisUpdate := r.crl.thisUpdate, reload := r')
      else s.(nextUpdate := r.crl.nextUpdate, reload := r')
    case Unlock => s.(reload := Swapped(r.base, r.b, r.crl))
    case Arm => s.(loaded := true, reload := Armed(r.base, r.b, r.crl))
    case StoreHash =>
      s.(lastHash := if cfg.isUrl then s.lastHash else cfg.digest(r.b), reload := Checking(r.base, ReadOk(r.b)))
    case CheckExpiry =>
      var c := CheckedExpiry(cfg, CoreOf(s), s.now);
      s.(expiredLogged := c.expiredLogged, log := c.log, reload := Idle)
    case MarkUnhealthy => s.(loaded := false, reload := Idle)
  }

  // ---- The system ----

  ghost predicate ClockNext(s: State, s': State) { exists time :: s' == s.(now := time) }

  ghost predicate LookNext(cfg: Config, s: State, s': State) {
    exists t: Thread, a: LookStep :: LookEnabled(s, t, a) && s' == s.(looks := s.looks[t := NextLook(cfg, s, t, a)])
  }

  ghost predicate ReloadNext(cfg: Config, s: State, s': State) {
    exists a: ReloadStep :: ReloadEnabled(s, a) && s' == AfterReload(cfg, s, a)
  }

  ghost predicate Next(cfg: Config, s: State, s': State) {
    ClockNext(s, s') || LookNext(cfg, s, s') || ReloadNext(cfg, s, s')
  }

  /** A step, or a moment in which only the rest of the system moves. */
  ghost predicate Step(cfg: Config, s: State, s': State) { s == s' || Next(cfg, s, s') }

  /** The reload goroutine starts after construction has loaded `first` at reading `start`. */
  predicate Init(cfg: Config, first: Bytes, start: Time, s: State) {
    && Started(cfg, ReadOk(first), start).Ok?
    && CoreOf(s) == Started(cfg, ReadOk(first), start).value
    && s.reload == Idle && s.looks == map[]
  }

  ghost predicate IsRun(cfg: Config, first: Bytes, start: Time, run: seq<State>) {
    && run != [] && Init(cfg, first, start, run[0])
    && forall i: nat :: i < |run| - 1 ==> Linked(cfg, run, i)
  }

  ghost predicate Linked(cfg: Config, run: seq<State>, i: nat)
    requires i + 1 < |run|
  {
    Step(cfg, run[i], run[i + 1])
  }

  // ---- What the reload goroutine keeps ----

  ghost predicate VerifiedGen(cfg: Config, g: Generation) { exists crl :: Verified(cfg, g, crl) }

  /** The three fields while `done` of them have been overwritten. */
  function Mixed(before: Generation, after: Generation, done: nat): Generation {
    Generation(if done > 0 then after.revoked else before.revoked,
               if done > 1 then after.thisUpdate else before.thisUpdate,
               if done > 2 then after.nextUpdate else before.nextUpdate)
  }

  /** How far the tick that began in `base` has got. */
  predicate ReloadInv(cfg: Config, s: State) {
    var r, c := s.reload, CoreOf(s);
    match r
    case Idle => true
    case HaveBytes(base, b) => c == base
    case Comparing(base, b, same) => c == base && !cfg.isUrl && same == (cfg.digest(b) == base.lastHash)
    case Parsing(base, b) => c == base && !Skips(cfg, base, b)
    case Parsed(base, b, crl) => c == base && !Skips(cfg, base, b) && Load(cfg, b) == Ok(crl)
    case Writing(base, b, crl, done) =>
      && !Skips(cfg, base, b) && Load(cfg, b) == Ok(crl) && done <= 3
      && c == base.(gen := Mixed(base.gen, GenOf(crl), done))
    case Swapped(base, b, crl) =>
      !Skips(cfg, base, b) && Load(cfg, b) == Ok(crl) && c == base.(gen := GenOf(crl))
    case Armed(base, b, crl) =>
      !Skips(cfg, base, b) && Load(cfg, b) == Ok(crl) && c == base.(gen := GenOf(crl), loaded := true)
    case Checking(base, read) =>
      && read.ReadOk?
      && if Skips(cfg, base, read.bytes) then c == base
         else Load(cfg, read.bytes).Ok? && c == Installed(cfg, base, read.bytes, Load(cfg, read.bytes).value)
    case Failing(base, read) =>
      && c == base
      && (read.ReadOk? ==> !Skips(cfg, base, read.bytes) && Load(cfg, read.bytes).Err?)
  }

  /** The state at the last tick boundary. */
  function Base(s: State): Core { if s.reload.Idle? then CoreOf(s) else s.reload.base }

  ghost predicate StateInv(cfg: Config, s: State) {
    && ReloadInv(cfg, s)
    && VerifiedGen(cfg, Base(s).gen)
    && (ReadLocked(s) ==> !WriteLocked(s))
  }

  lemma LoadedIsVerified(cfg: Config, b: Bytes)
    requires Load(cfg, b).Ok?
    ensures VerifiedGen(cfg, GenOf(Load(cfg, b).value))
  {
    assert cfg.parse(b) == Some(Load(cfg, b).value);
    assert Verified(cfg, GenOf(Load(cfg, b).value), Load(cfg, b).value);
  }

  /** Outside the write lock, the three fields hold exactly one verified generation. */
  lemma UnlockedGenVerified(cfg: Config, s: State)
    requires StateInv(cfg, s) && !WriteLocked(s)
    ensures VerifiedGen(cfg, Gen(s))
  {
    match s.reload
    case Swapped(_, b, _) => LoadedIsVerified(cfg, b);
    case Armed(_, b, _) => LoadedIsVerified(cfg, b);
    case Checking(base, read) => if !Skips(cfg, base, read.bytes) { LoadedIsVerified(cfg, read.bytes); }
    case _ =>
  }

  predicate EndsTick(a: ReloadStep) { a.CheckExpiry? || a.MarkUnhealthy? }

  /** What a reload step preserves: it disturbs no lookup, and changes the fields only under the write lock. */
  ghost predicate ReloadKeeps(cfg: Config, s: State, s': State) {
    && StateInv(cfg, s') && s'.looks == s.looks && s'.now == s.now
    && (Gen(s') != Gen(s) ==> WriteLocked(s))
  }

  /** The step that ends a tick has, with all the steps before it, performed exactly `Tick`. */
  lemma TickEnds(cfg: Config, s: State, a: ReloadStep)
    requires StateInv(cfg, s) && ReloadEnabled(s, a) && EndsTick(a)
    ensures ReloadKeeps(cfg, s, AfterReload(cfg, s, a))
    ensures CoreOf(AfterReload(cfg, s, a)) == Tick(cfg, s.reload.base, s.reload.read, s.now)
    ensures AfterReload(cfg, s, a).reload.Idle? && !s.reload.Idle?
  {
    UnlockedGenVerified(cfg, s);
  }

  lemma LockKeeps(cfg: Config, s: State, a: ReloadStep)
    requires StateInv(cfg, s) && ReloadEnabled(s, a) && (a.Lock? || a.Unlock?)
    ensures ReloadKeeps(cfg, s, AfterReload(cfg, s, a)) && Base(AfterReload(cfg, s, a)) == Base(s)
  {
  }

  lemma WriteKeeps(cfg: Config, s: State)
    requires StateInv(cfg, s) && ReloadEnabled(s, Write)
    ensures ReloadKeeps(cfg, s, AfterReload(cfg, s, Write)) && Base(AfterReload(cfg, s, Write)) == Base(s)
  {
  }

  lemma DecisionKeeps(cfg: Config, s: State, a: ReloadStep)
    requires StateInv(cfg, s) && ReloadEnabled(s, a) && (a.ReadFile? || a.Compare? || a.Decide? || a.Parse?)
    ensures ReloadKeeps(cfg, s, AfterReload(cfg, s, a)) && Base(AfterReload(cfg, s, a)) == Base(s)
  {
  }

  lemma ArmingKeeps(cfg: Config, s: State, a: ReloadStep)
    requires StateInv(cfg, s) && ReloadEnabled(s, a) && (a.Arm? || a.StoreHash?)
    ensures ReloadKeeps(cfg, s, AfterReload(cfg, s, a)) && Base(AfterReload(cfg, s, a)) == Base(s)
  {
  }

  /** The step from `s` to `s'` is the last one of a tick. */
  predicate EndsTurn(s: State, s': State) { (s.reload.Checking? || s.reload.Failing?) && s'.reload.Idle? }

  /** Every reload step stays inside its tick or completes it. */
  lemma ReloadStepOk(cfg: Config, s: State, s': State, a: ReloadStep)
    requires StateInv(cfg, s) && ReloadEnabled(s, a) && s' == AfterReload(cfg, s, a)
    ensures ReloadKeeps(cfg, s, s')
    ensures Base(s') == if EndsTurn(s, s') then Tick(cfg, Base(s), s.reload.read, s.now) else Base(s)
  {
    match a
    case CheckExpiry => TickEnds(cfg, s, a);
    case MarkUnhealthy => TickEnds(cfg, s, a);
    case Lock => LockKeeps(cfg, s, a);
    case Write => WriteKeeps(cfg, s);
    case Unlock => LockKeeps(cfg, s, a);
    case Arm => ArmingKeeps(cfg, s, a);
    case StoreHash => ArmingKeeps(cfg, s, a);
    case _ => DecisionKeeps(cfg, s, a);
  }

  // ---- What a lookup keeps ----

  /** In step `h` lookup `t` read the `loaded` flag, and it was set. */
  predicate LoadedAt(run: seq<State>, n: nat, h: nat, t: Thread) {
    && h < n < |run| && run[h].loaded
    && t in run[h].looks && run[h].looks[t].Called?
    && t in run[h + 1].looks && run[h + 1].looks[t].SawLoaded?
  }

  ghost predicate WasLoaded(run: seq<State>, n: nat, t: Thread) { exists h: nat :: LoadedAt(run, n, h, t) }

  /**
   In step `i` of the run lookup `t` for `serial`, which had seen the source in service and held the read
   lock, read the clock as `now`, while the fields held one verified generation.
   */
  ghost predicate Moment(cfg: Config, run: seq<State>, n: nat, i: nat, t: Thread, serial: int, now: Time) {
    && i < n < |run|
    && t in run[i].looks && run[i].looks[t].Locked? && run[i].looks[t].serial == serial && run[i].now == now
    && t in run[i + 1].looks && run[i + 1].looks[t].ReadClock?
    && !WriteLocked(run[i]) && VerifiedGen(cfg, Gen(run[i])) && WasLoaded(run, i, t)
  }

  /** The locals read so far agree with generation `g`. */
  predicate LocalsFrom(l: Look, g: Generation)
    requires l.ReadClock? || l.ReadWindow? || l.ReadEntry? || l.Unlocked?
  {
    && (!l.ReadClock? ==> l.thisUpdate == g.thisUpdate && l.nextUpdate == g.nextUpdate)
    && (l.ReadEntry? || l.Unlocked? ==> l.entry == Find(g.revoked, l.serial))
  }

  ghost predicate LookInv(cfg: Config, run: seq<State>, n: nat, t: Thread, l: Look)
    requires n < |run|
  {
    if l.ReadClock? || l.ReadWindow? || l.ReadEntry? then
      exists i: nat :: Moment(cfg, run, n, i, t, l.serial, l.now) && Gen(run[i]) == Gen(run[n])
                       && LocalsFrom(l, Gen(run[i]))
    else if l.Unlocked? then
      exists i: nat :: Moment(cfg, run, n, i, t, l.serial, l.now) && LocalsFrom(l, Gen(run[i]))
    else if l.Finished? && l.at.Some? then
      exists i: nat :: Moment(cfg, run, n, i, t, l.serial, l.at.value)
                       && l.result == LookupAt(cfg, Gen(run[i]), l.serial, l.issuer, l.at.value)
    else if l.Finished? then l.result == Err(Cancelled) || l.result == Err(SourceUnhealthy)
    else if l.SawLoaded? || l.Locked? then WasLoaded(run, n, t)
    else true
  }

  ghost predicate RunOk(cfg: Config, run: seq<State>, n: nat)
    requires n < |run|
  {
    && StateInv(cfg, run[n])
    && forall t: Thread :: t in run[n].looks ==> LookInv(cfg, run, n, t, run[n].looks[t])
  }

  /** A lookup that does not move keeps what it knows: while it reads, nobody can write. */
  lemma LookStays(cfg: Config, run: seq<State>, n: nat, t: Thread)
    requires n + 1 < |run| && t in run[n].looks
    requires LookInv(cfg, run, n, t, run[n].looks[t])
    requires Reading(run[n].looks[t]) ==> Gen(run[n + 1]) == Gen(run[n])
    ensures LookInv(cfg, run, n + 1, t, run[n].looks[t])
  {
    var l := run[n].looks[t];
    if l.ReadClock? || l.ReadWindow? || l.ReadEntry? {
      var i: nat :| Moment(cfg, run, n, i, t, l.serial, l.now) && Gen(run[i]) == Gen(run[n])
                    && LocalsFrom(l, Gen(run[i]));
      assert Moment(cfg, run, n + 1, i, t, l.serial, l.now);
    } else if l.Unlocked? {
      var i: nat :| Moment(cfg, run, n, i, t, l.serial, l.now) && LocalsFrom(l, Gen(run[i]));
      assert Moment(cfg, run, n + 1, i, t, l.serial, l.now);
    } else if l.Finished? && l.at.Some? {
      var i: nat :| Moment(cfg, run, n, i, t, l.serial, l.at.value)
                    && l.result == LookupAt(cfg, Gen(run[i]), l.serial, l.issuer, l.at.value);
      assert Moment(cfg, run, n + 1, i, t, l.serial, l.at.value);
    } else if l.SawLoaded? || l.Locked? {
      WasLoadedStays(run, n, t);
    }
  }

  lemma WasLoadedStays(run: seq<State>, n: nat, t: Thread)
    requires n + 1 < |run| && WasLoaded(run, n, t)
    ensures WasLoaded(run, n + 1, t)
  {
    var h: nat :| LoadedAt(run, n, h, t);
    assert LoadedAt(run, n + 1, h, t);
  }

  /** The lookup reads the clock: this is the moment that its result will refer to. */
  lemma ClockMoves(cfg: Config, run: seq<State>, n: nat, t: Thread)
    requires n + 1 < |run| && RunOk(cfg, run, n) && LookEnabled(run[n], t, TakeClock)
    requires run[n + 1] == run[n].(looks := run[n].looks[t := NextLook(cfg, run[n], t, TakeClock)])
    ensures LookInv(cfg, run, n + 1, t, run[n + 1].looks[t])
  {
    UnlockedGenVerified(cfg, run[n]);
    assert Moment(cfg, run, n + 1, n, t, run[n].looks[t].serial, run[n].now);
  }

  lemma ReadMoves(cfg: Config, run: seq<State>, n: nat, t: Thread, a: LookStep)
    requires n + 1 < |run| && LookEnabled(run[n], t, a) && (a.TakeWindow? || a.TakeEntry? || a.RUnlock?)
    requires LookInv(cfg, run, n, t, run[n].looks[t])
    requires run[n + 1] == run[n].(looks := run[n].looks[t := NextLook(cfg, run[n], t, a)])
    ensures LookInv(cfg, run, n + 1, t, run[n + 1].looks[t])
  {
    var l := run[n].looks[t];
    var i: nat :| Moment(cfg, run, n, i, t, l.serial, l.now) && Gen(run[i]) == Gen(run[n])
                  && LocalsFrom(l, Gen(run[i]));
    assert Moment(cfg, run, n + 1, i, t, l.serial, l.now);
    assert LocalsFrom(run[n + 1].looks[t], Gen(run[i]));
  }

  /** The locals alone determine what a sequential lookup in their generation would say. */
  lemma ConcludesLikeLookup(cfg: Config, l: Look, g: Generation)
    requires l.Unlocked? && LocalsFrom(l, g)
    ensures Conclude(cfg, l) == LookupAt(cfg, g, l.serial, l.issuer, l.now)
  {
  }

  lemma FinishMoves(cfg: Config, run: seq<State>, n: nat, t: Thread)
    requires n + 1 < |run| && LookEnabled(run[n], t, Finish) && LookInv(cfg, run, n, t, run[n].looks[t])
    requires run[n + 1] == run[n].(looks := run[n].looks[t := NextLook(cfg, run[n], t, Finish)])
    ensures LookInv(cfg, run, n + 1, t, run[n + 1].looks[t])
  {
    var l := run[n].looks[t];
    var i: nat :| Moment(cfg, run, n, i, t, l.serial, l.now) && LocalsFrom(l, Gen(run[i]));
    assert Moment(cfg, run, n + 1, i, t, l.serial, l.now);
    ConcludesLikeLookup(cfg, l, Gen(run[i]));
  }

  /** One step of lookup `t` itself. */
  lemma LookMoves(cfg: Config, run: seq<State>, n: nat, t: Thread, a: LookStep)
    requires n + 1 < |run| && RunOk(cfg, run, n) && LookEnabled(run[n], t, a)
    requires run[n + 1] == run[n].(looks := run[n].looks[t := NextLook(cfg, run[n], t, a)])
    ensures LookInv(cfg, run, n + 1, t, run[n + 1].looks[t])
  {
    assert t in run[n].looks ==> LookInv(cfg, run, n, t, run[n].looks[t]);
    match a
    case TestLoaded => if run[n].loaded { assert LoadedAt(run, n + 1, n, t); }
    case RLock => WasLoadedStays(run, n, t);
    case TakeClock => ClockMoves(cfg, run, n, t);
    case TakeWindow => ReadMoves(cfg, run, n, t, a);
    case TakeEntry => ReadMoves(cfg, run, n, t, a);
    case RUnlock => ReadMoves(cfg, run, n, t, a);
    case Finish => FinishMoves(cfg, run, n, t);
    case _ =>
  }

  /** A lookup takes the read lock only while nobody holds the write lock, and changes nothing else. */
  lemma LookKeepsState(cfg: Config, s: State, t: Thread, a: LookStep)
    requires StateInv(cfg, s) && LookEnabled(s, t, a)
    ensures StateInv(cfg, s.(looks := s.looks[t := NextLook(cfg, s, t, a)]))
  {
    var s' := s.(looks := s.looks[t := NextLook(cfg, s, t, a)]);
    if WriteLocked(s) {
      forall u: Thread | u in s'.looks ensures !Reading(s'.looks[u]) {
        assert u in s.looks && Reading(s.looks[u]) ==> ReadLocked(s);
      }
    }
  }

  lemma LookStepOk(cfg: Config, run: seq<State>, n: nat, t: Thread, a: LookStep)
    requires n + 1 < |run| && RunOk(cfg, run, n) && LookEnabled(run[n], t, a)
    requires run[n + 1] == run[n].(looks := run[n].looks[t := NextLook(cfg, run[n], t, a)])
    ensures RunOk(cfg, run, n + 1)
  {
    LookKeepsState(cfg, run[n], t, a);
    LookMoves(cfg, run, n, t, a);
    var m, s' := n + 1, run[n + 1];
    forall u: Thread | u in s'.looks ensures LookInv(cfg, run, m, u, s'.looks[u]) {
      if u != t { LookStays(cfg, run, n, u); }
    }
  }

  lemma OtherStepOk(cfg: Config, run: seq<State>, n: nat)
    requires n + 1 < |run| && RunOk(cfg, run, n) && StateInv(cfg, run[n + 1])
    requires run[n + 1].looks == run[n].looks
    requires Gen(run[n + 1]) != Gen(run[n]) ==> WriteLocked(run[n])
    ensures RunOk(cfg, run, n + 1)
  {
    var m, s' := n + 1, run[n + 1];
    forall u: Thread | u in s'.looks ensures LookInv(cfg, run, m, u, s'.looks[u]) {
      LookStays(cfg, run, n, u);
    }
  }

  lemma StepOk(cfg: Config, first: Bytes, start: Time, run: seq<State>, n: nat)
    requires IsRun(cfg, first, start, run) && n + 1 < |run| && RunOk(cfg, run, n)
    ensures RunOk(cfg, run, n + 1)
  {
    assert Linked(cfg, run, n);
    var s, s' := run[n], run[n + 1];
    if s == s' || ClockNext(s, s') {
      assert ReadLocked(s') <==> ReadLocked(s);
      OtherStepOk(cfg, run, n);
    } else if LookNext(cfg, s, s') {
      var t: Thread, a: LookStep :| LookEnabled(s, t, a) && s' == s.(looks := s.looks[t := NextLook(cfg, s, t, a)]);
      LookStepOk(cfg, run, n, t, a);
    } else {
      var a: ReloadStep :| ReloadEnabled(s, a) && s' == AfterReload(cfg, s, a);
      ReloadStepOk(cfg, s, s', a);
      OtherStepOk(cfg, run, n);
    }
  }

  lemma InitOk(cfg: Config, first: Bytes, start: Time, run: seq<State>)
    requires run != [] && Init(cfg, first, start, run[0])
    ensures RunOk(cfg, run, 0)
  {
    LoadedIsVerified(cfg, first);
  }

  lemma {:induction false} AllOk(cfg: Config, first: Bytes, start: Time, run: seq<State>, n: nat)
    requires IsRun(cfg, first, start, run) && n < |run|
    ensures RunOk(cfg, run, n)
  {
    if n == 0 {
      InitOk(cfg, first, start, run);
    } else {
      AllOk(cfg, first, start, run, n - 1);
      StepOk(cfg, first, start, run, n - 1);
    }
  }

  // ---- Main results ----

  /**
   Whatever the reload goroutine does meanwhile, a lookup that found the `loaded` flag set returns exactly
   what a sequential lookup in one single verified generation returns, at a moment of the run when that
   generation was installed, the lookup held the read lock, and the clock read what the lookup read. One
   that did not find it set returns an error.
   */
  lemma LookupSeesOneGeneration(cfg: Config, first: Bytes, start: Time, run: seq<State>, n: nat, t: Thread)
    requires IsRun(cfg, first, start, run) && n < |run| && t in run[n].looks && run[n].looks[t].Finished?
    ensures
      var l := run[n].looks[t];
      if l.at.None? then l.result == Err(Cancelled) || l.result == Err(SourceUnhealthy)
      else exists i: nat ::
        Moment(cfg, run, n, i, t, l.serial, l.at.value)
        && l.result == LookupAt(cfg, Gen(run[i]), l.serial, l.issuer, l.at.value)
  {
    AllOk(cfg, first, start, run, n);
    assert LookInv(cfg, run, n, t, run[n].looks[t]);
  }

  /** The ticks completed by moment `n`: what each had read, and the clock at its last step. */
  function TurnsOf(run: seq<State>, n: nat): seq<Turn>
    requires n < |run|
  {
    if n == 0 then []
    else
      TurnsOf(run, n - 1)
      + if EndsTurn(run[n - 1], run[n]) then [Turn(run[n - 1].reload.read, run[n - 1].now)] else []
  }

  /** A step either stays inside a tick or completes one. */
  lemma BaseStep(cfg: Config, s: State, s': State)
    requires StateInv(cfg, s) && Step(cfg, s, s')
    ensures Base(s') == if EndsTurn(s, s') then Tick(cfg, Base(s), s.reload.read, s.now) else Base(s)
  {
    if ReloadNext(cfg, s, s') {
      var a: ReloadStep :| ReloadEnabled(s, a) && s' == AfterReload(cfg, s, a);
      ReloadStepOk(cfg, s, s', a);
    } else {
      BaseKept(cfg, s, s');
    }
  }

  lemma BaseKept(cfg: Config, s: State, s': State)
    requires s == s' || ClockNext(s, s') || LookNext(cfg, s, s')
    ensures Base(s') == Base(s) && s'.reload == s.reload
  {
  }

  /**
   Tick by tick, the interleaved reload goroutine computes what the sequential one computes on the reads
   of this very run, so everything proved about histories of ticks holds at every tick boundary.
   */
  lemma {:induction false} ReloadIsSequential(cfg: Config, first: Bytes, start: Time, run: seq<State>, n: nat)
    requires IsRun(cfg, first, start, run) && n < |run|
    ensures Base(run[n]) == TickRun(cfg, CoreOf(run[0]), TurnsOf(run, n))
  {
    if n > 0 {
      var s, s' := run[n - 1], run[n];
      ReloadIsSequential(cfg, first, start, run, n - 1);
      assert StateInv(cfg, s) && Step(cfg, s, s') by {
        AllOk(cfg, first, start, run, n - 1);
        assert Linked(cfg, run, n - 1);
      }
      BaseStep(cfg, s, s');
      if EndsTurn(s, s') {
        TickRunSnoc(cfg, CoreOf(run[0]), TurnsOf(run, n - 1), Turn(s.reload.read, s.now));
      } else {
        assert TurnsOf(run, n) == TurnsOf(run, n - 1);
      }
    }
  }

  /**
   Between ticks of any interleaving the expiry log is exactly the edges of the usability that this run's
   ticks sampled, so it alternates; and, if no two byte strings among those this run has read share a
   digest, the source serves what a reloader without the digest shortcut serves after the same reads.
   */
  lemma IdleStates(cfg: Config, first: Bytes, start: Time, run: seq<State>, n: nat)
    requires IsRun(cfg, first, start, run) && n < |run| && run[n].reload.Idle?
    ensures
      var c0, turns := CoreOf(run[0]), TurnsOf(run, n);
      && run[n].log == Edges([GenUsable(cfg, c0.gen, start)] + Samples(cfg, c0, turns))
      && Alternates(run[n].log)
      && (cfg.isUrl || NoCollision(cfg, first, turns) ==>
            View(CoreOf(run[n])) == ReparseRun(cfg, View(c0), turns))
  {
    var turns := TurnsOf(run, n);
    ReloadIsSequential(cfg, first, start, run, n);
    LogRecordsTransitions(cfg, first, start, turns);
    if cfg.isUrl || NoCollision(cfg, first, turns) { SkippingRefinesReparsing(cfg, first, start, turns); }
  }

  /** The bytes that the tick under way has installed, if it has got that far. */
  predicate JustInstalled(cfg: Config, s: State, b: Bytes) {
    && (s.reload.Swapped? || s.reload.Armed? || (s.reload.Checking? && s.reload.read.ReadOk?))
    && b == (if s.reload.Checking? then s.reload.read.bytes else s.reload.b)
    && Load(cfg, b).Ok? && Gen(s) == GenOf(Load(cfg, b).value)
  }

  /**
   Whenever a lookup may read, the installed generation is not a superseded one: it is that of the last
   verifiable CRL among the completed reads of this run, or of the tick under way.
   */
  lemma GenerationIsNewest(cfg: Config, first: Bytes, start: Time, run: seq<State>, n: nat)
    requires IsRun(cfg, first, start, run) && n < |run| && !WriteLocked(run[n])
    requires cfg.isUrl || NoCollision(cfg, first, TurnsOf(run, n))
    ensures Gen(run[n]) == ReparseRun(cfg, View(CoreOf(run[0])), TurnsOf(run, n)).gen
      || exists b :: JustInstalled(cfg, run[n], b)
  {
    AllOk(cfg, first, start, run, n);
    ReloadIsSequential(cfg, first, start, run, n);
    SkippingRefinesReparsing(cfg, first, start, TurnsOf(run, n));
    match run[n].reload
    case Swapped(_, b, _) => assert JustInstalled(cfg, run[n], b);
    case Armed(_, b, _) => assert JustInstalled(cfg, run[n], b);
    case Checking(base, read) => assert Gen(run[n]) == base.gen || JustInstalled(cfg, run[n], read.bytes);
    case _ =>
  }

  /**
   In any interleaving, the step that ends a tick which read a verifiable CRL leaves that CRL in service,
   even if the same bytes had been loaded before a failure took the source out of service.
   */
  lemma GoodTickRearms(cfg: Config, first: Bytes, start: Time, run: seq<State>, n: nat, b: Bytes)
    requires IsRun(cfg, first, start, run) && n + 1 < |run| && EndsTurn(run[n], run[n + 1])
    requires run[n].reload.read == ReadOk(b) && Load(cfg, b).Ok?
    requires cfg.isUrl || NoCollision(cfg, first, TurnsOf(run, n + 1))
    ensures Gen(run[n + 1]) == GenOf(Load(cfg, b).value) && run[n + 1].loaded
  {
    var turns := TurnsOf(run, n);
    ReloadIsSequential(cfg, first, start, run, n);
    ReloadIsSequential(cfg, first, start, run, n + 1);
    GoodReadRearms(cfg, first, start, turns, b, run[n].now);
    TickRunSnoc(cfg, CoreOf(run[0]), turns, Turn(ReadOk(b), run[n].now));
  }
}
