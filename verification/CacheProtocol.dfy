/**
 The response cache under concurrency: any number of goroutines inside `getAt` and `setAt`, stepping
 through the read lock, the upgrade to the write lock, the map updates, the gauge update and the
 release, in any order that the lock allows.
 */
module CacheProtocol {
  import opened Types
  import opened Signer
  import opened ResponseCache

  datatype Op =
    | Get(key: string, now: Reading)
    | Set(key: string, data: Signed, insertedAt: Reading, signedNextUpdate: Time)

  /** Where a goroutine is inside its call. */
  datatype Pc =
    | Called(op: Op)
    | Waiting(op: Op)                               // wants the write lock
    | Holding(op: Op)                               // has it, nothing changed yet
    | Evicted(op: Op)                               // a set past its eviction loop
    | Written(op: Op, reply: Option<Signed>)        // entries changed, gauge not yet updated
    | Releasing(op: Op, reply: Option<Signed>)      // about to unlock
    | Done(op: Op, reply: Option<Signed>)

  /** Between acquiring and releasing the write lock. */
  predicate Inside(pc: Pc) { pc.Holding? || pc.Evicted? || pc.Written? || pc.Releasing? }

  /**
   `entries`, `gauge` and the lock are the shared memory. `committed` (the entries as of the last release)
   and `issued` (every operation ever started) only record history.
   */
  datatype State = State(
    entries: Entries,
    gauge: int,
    writer: Option<Thread>,
    threads: map<Thread, Pc>,
    committed: Entries,
    issued: set<Op>)

  datatype Action =
    | Begin(t: Thread, op: Op)
    | Read(t: Thread)
    | Guard(t: Thread)
    | Acquire(t: Thread)
    | Inspect(t: Thread)
    | Evict(t: Thread, victim: string)
    | Insert(t: Thread)
    | SetGauge(t: Thread)
    | Release(t: Thread)

  predicate OpStorable(cfg: Config, op: Op) {
    op.Set? && Storable(cfg, op.insertedAt, op.signedNextUpdate)
  }

  function EntryFor(cfg: Config, op: Op): Entry
    requires op.Set?
  {
    Entry(op.data, ExpiryOf(cfg, op.insertedAt, op.signedNextUpdate))
  }

  predicate Init(s: State) {
    s == State(map[], 0, None, map[], map[], {})
  }

  predicate Enabled(cfg: Config, s: State, a: Action) {
    match a
    case Begin(t, _) => t in s.threads ==> s.threads[t].Done?
    case Read(t) => t in s.threads && s.threads[t].Called? && s.threads[t].op.Get? && s.writer.None?
    case Guard(t) => t in s.threads && s.threads[t].Called? && s.threads[t].op.Set?
    case Acquire(t) => t in s.threads && s.threads[t].Waiting? && s.writer.None?
    case Inspect(t) => t in s.threads && s.threads[t].Holding? && s.threads[t].op.Get?
    case Evict(t, victim) =>
      && t in s.threads && s.threads[t].Holding? && s.threads[t].op.Set?
      && (|s.entries| >= cfg.maxEntries ==> victim in s.entries)
    case Insert(t) => t in s.threads && s.threads[t].Evicted? && s.threads[t].op.Set?
    case SetGauge(t) => t in s.threads && s.threads[t].Written?
    case Release(t) => t in s.threads && s.threads[t].Releasing?
  }

  function Apply(cfg: Config, s: State, a: Action): State
    requires Enabled(cfg, s, a)
  {
    match a
    case Begin(t, op) => s.(threads := s.threads[t := Called(op)], issued := s.issued + {op})
    case Read(t) =>
      var op := s.threads[t].op;
      var pc :=
        if !cfg.enabled || op.key !in s.entries then Done(op, None)
        else if Live(op.now, s.entries[op.key].expiresAt) then Done(op, Some(s.entries[op.key].data))
        else Waiting(op);
      s.(threads := s.threads[t := pc])
    case Guard(t) =>
      var op := s.threads[t].op;
      s.(threads := s.threads[t := if OpStorable(cfg, op) then Waiting(op) else Done(op, None)])
    case Acquire(t) =>
      s.(writer := Some(t), threads := s.threads[t := Holding(s.threads[t].op)])
    case Inspect(t) =>
      var op := s.threads[t].op;
      if op.key !in s.entries then s.(threads := s.threads[t := Releasing(op, None)])
      else if Live(op.now, s.entries[op.key].expiresAt) then
        s.(threads := s.threads[t := Releasing(op, Some(s.entries[op.key].data))])
      else
        s.(entries := s.entries - {op.key}, threads := s.threads[t := Written(op, None)])
    case Evict(t, victim) =>
      var op := s.threads[t].op;
      s.(entries := if |s.entries| >= cfg.maxEntries then s.entries - {victim} else s.entries,
         threads := s.threads[t := Evicted(op)])
    case Insert(t) =>
      var op := s.threads[t].op;
      s.(entries := s.entries[op.key := EntryFor(cfg, op)], threads := s.threads[t := Written(op, None)])
    case SetGauge(t) =>
      var pc := s.threads[t];
      s.(gauge := if cfg.hasGauge then |s.entries| else s.gauge,
         threads := s.threads[t := Releasing(pc.op, pc.reply)])
    case Release(t) =>
      var pc := s.threads[t];
      s.(writer := None, committed := s.entries, threads := s.threads[t := Done(pc.op, pc.reply)])
  }

  ghost predicate Next(cfg: Config, s: State, s': State) {
    exists a :: Enabled(cfg, s, a) && s' == Apply(cfg, s, a)
  }

  // ---- Invariant ----

  /** Some issued, storable set produced this entry for this key. */
  ghost predicate FromSet(cfg: Config, issued: set<Op>, key: string, e: Entry) {
    exists op :: op in issued && OpStorable(cfg, op) && op.key == key && e == EntryFor(cfg, op)
  }

  ghost predicate AllFromSets(cfg: Config, issued: set<Op>, entries: Entries) {
    forall k :: k in entries ==> FromSet(cfg, issued, k, entries[k])
  }

  /** A hit for `key` at reading `now` returned the bytes of a set that had not expired by then. */
  ghost predicate HitOk(cfg: Config, issued: set<Op>, key: string, now: Reading, data: Signed) {
    exists op :: op in issued && OpStorable(cfg, op) && op.key == key && op.data == data
                 && Live(now, EntryFor(cfg, op).expiresAt)
  }

  /** The finished critical section of `op` amounts to the atomic operation on `committed`. */
  ghost predicate Effect(cfg: Config, op: Op, reply: Option<Signed>, before: Entries, after: Entries) {
    match op
    case Get(key, now) => (reply, after) == AtomicGet(cfg, before, key, now)
    case Set(key, data, insertedAt, next) =>
      reply.None? && AtomicSet(cfg, before, key, data, insertedAt, next, after)
  }

  /** What a goroutine knows that nobody else can invalidate. */
  ghost predicate LocalInv(cfg: Config, issued: set<Op>, pc: Pc) {
    && pc.op in issued
    && (pc.Waiting? || pc.Holding? || pc.Evicted? ==>
          if pc.op.Set? then OpStorable(cfg, pc.op) else cfg.enabled)
    && (pc.Evicted? ==> pc.op.Set?)
    && ((pc.Written? || pc.Releasing? || pc.Done?) && pc.op.Get? && pc.reply.Some? ==>
          HitOk(cfg, issued, pc.op.key, pc.op.now, pc.reply.value))
  }

  /** What the holder of the write lock knows about the shared memory. */
  ghost predicate HolderInv(cfg: Config, s: State, pc: Pc) {
    && (pc.Holding? ==> s.entries == s.committed)
    && (pc.Holding? || pc.Releasing? ==> GaugeAgrees(cfg, s.gauge, s.entries))
    && (pc.Evicted? ==> MadeRoom(cfg, s.committed, s.entries))
    && (pc.Written? || pc.Releasing? ==> Effect(cfg, pc.op, pc.reply, s.committed, s.entries))
  }

  ghost predicate ThreadInv(cfg: Config, s: State, t: Thread, pc: Pc) {
    && (Inside(pc) <==> s.writer == Some(t))
    && LocalInv(cfg, s.issued, pc)
    && (Inside(pc) ==> HolderInv(cfg, s, pc))
  }

  ghost predicate Inv(cfg: Config, s: State) {
    && (s.writer.None? ==> s.entries == s.committed && GaugeAgrees(cfg, s.gauge, s.entries))
    && (s.writer.Some? ==> s.writer.value in s.threads)
    && WithinBound(cfg, s.committed) && WithinBound(cfg, s.entries)
    && AllFromSets(cfg, s.issued, s.entries) && AllFromSets(cfg, s.issued, s.committed)
    && forall t: Thread :: t in s.threads ==> ThreadInv(cfg, s, t, s.threads[t])
  }

  // ---- The atomic cache that the protocol implements ----

  datatype AtomicPc = Pending(op: Op) | Returned(op: Op, reply: Option<Signed>)

  datatype AtomicState = AtomicState(entries: Entries, threads: map<Thread, AtomicPc>)

  function AbsPc(pc: Pc): AtomicPc {
    if pc.Done? then Returned(pc.op, pc.reply) else Pending(pc.op)
  }

  function Abs(s: State): AtomicState {
    AtomicState(s.committed, map t | t in s.threads :: AbsPc(s.threads[t]))
  }

  /** A call starts, or one pending call takes effect and returns, in a single step. */
  ghost predicate AtomicNext(cfg: Config, a: AtomicState, a': AtomicState) {
    || (exists t: Thread, op ::
          && (t in a.threads ==> a.threads[t].Returned?)
          && a' == a.(threads := a.threads[t := Pending(op)]))
    || (exists t: Thread, reply ::
          && t in a.threads && a.threads[t].Pending?
          && Effect(cfg, a.threads[t].op, reply, a.entries, a'.entries)
          && a'.threads == a.threads[t := Returned(a.threads[t].op, reply)])
  }

  ghost predicate AtomicStep(cfg: Config, a: AtomicState, a': AtomicState) {
    a == a' || AtomicNext(cfg, a, a')
  }

  // ---- Every step keeps the invariant and is a step of the atomic cache, or none ----

  /** A step of `t` that leaves the lock free or with `t` does not disturb anyone else. */
  lemma OthersUndisturbed(cfg: Config, s: State, s': State, t: Thread, pc: Pc)
    requires Inv(cfg, s)
    requires s'.threads == s.threads[t := pc] && s.issued <= s'.issued
    requires || s' == s.(threads := s'.threads, issued := s'.issued)
             || (s.writer in {None, Some(t)} && s'.writer in {None, Some(t)})
    ensures forall u: Thread :: u in s'.threads && u != t ==> ThreadInv(cfg, s', u, s'.threads[u])
  {
    forall u: Thread | u in s'.threads && u != t ensures ThreadInv(cfg, s', u, s'.threads[u]) {
      assert ThreadInv(cfg, s, u, s.threads[u]);
    }
  }

  /** The call of `t` takes effect between `s` and `s'`. */
  lemma TakesEffect(cfg: Config, s: State, s': State, t: Thread, op: Op, reply: Option<Signed>)
    requires t in s.threads && !s.threads[t].Done? && s.threads[t].op == op
    requires s'.threads == s.threads[t := Done(op, reply)]
    requires Effect(cfg, op, reply, s.committed, s'.committed)
    ensures AtomicStep(cfg, Abs(s), Abs(s'))
  {
    var a, a' := Abs(s), Abs(s');
    assert a'.threads == a.threads[t := Returned(op, reply)];
    assert a.threads[t] == Pending(op);
    assert Effect(cfg, a.threads[t].op, reply, a.entries, a'.entries);
  }

  /** A step inside a call is invisible to the atomic cache. */
  lemma StillPending(s: State, s': State, t: Thread, pc: Pc)
    requires t in s.threads && !s.threads[t].Done? && !pc.Done? && s.threads[t].op == pc.op
    requires s'.threads == s.threads[t := pc] && s'.committed == s.committed
    ensures Abs(s') == Abs(s)
  {
    assert Abs(s').threads == Abs(s).threads;
  }

  lemma BeginStep(cfg: Config, s: State, t: Thread, op: Op)
    requires Inv(cfg, s) && Enabled(cfg, s, Begin(t, op))
    ensures var s' := Apply(cfg, s, Begin(t, op)); Inv(cfg, s') && AtomicStep(cfg, Abs(s), Abs(s'))
  {
    var s' := Apply(cfg, s, Begin(t, op));
    OthersUndisturbed(cfg, s, s', t, Called(op));
    IssuedGrows(cfg, s, s'.issued);
    StartsPending(cfg, s, s', t, op);
  }

  lemma StartsPending(cfg: Config, s: State, s': State, t: Thread, op: Op)
    requires t in s.threads ==> s.threads[t].Done?
    requires s'.threads == s.threads[t := Called(op)] && s'.committed == s.committed
    ensures AtomicStep(cfg, Abs(s), Abs(s'))
  {
    assert Abs(s').threads == Abs(s).threads[t := Pending(op)];
    assert Abs(s') == Abs(s).(threads := Abs(s).threads[t := Pending(op)]);
  }

  lemma IssuedGrows(cfg: Config, s: State, more: set<Op>)
    requires Inv(cfg, s) && s.issued <= more
    ensures AllFromSets(cfg, more, s.entries) && AllFromSets(cfg, more, s.committed)
  {
    forall k | k in s.entries ensures FromSet(cfg, more, k, s.entries[k]) {
      assert FromSet(cfg, s.issued, k, s.entries[k]);
    }
    forall k | k in s.committed ensures FromSet(cfg, more, k, s.committed[k]) {
      assert FromSet(cfg, s.issued, k, s.committed[k]);
    }
  }

  /** A goroutine that returns from an unlocked read has performed its whole call at that read. */
  lemma ReadStep(cfg: Config, s: State, t: Thread)
    requires Inv(cfg, s) && Enabled(cfg, s, Read(t))
    ensures var s' := Apply(cfg, s, Read(t)); Inv(cfg, s') && AtomicStep(cfg, Abs(s), Abs(s'))
  {
    var s' := Apply(cfg, s, Read(t));
    var op := s.threads[t].op;
    OthersUndisturbed(cfg, s, s', t, s'.threads[t]);
    if s'.threads[t].Done? {
      assert op.key in s.entries ==> FromSet(cfg, s.issued, op.key, s.entries[op.key]);
      TakesEffect(cfg, s, s', t, op, s'.threads[t].reply);
    } else {
      StillPending(s, s', t, s'.threads[t]);
    }
  }

  lemma GuardStep(cfg: Config, s: State, t: Thread)
    requires Inv(cfg, s) && Enabled(cfg, s, Guard(t))
    ensures var s' := Apply(cfg, s, Guard(t)); Inv(cfg, s') && AtomicStep(cfg, Abs(s), Abs(s'))
  {
    var s' := Apply(cfg, s, Guard(t));
    var op := s.threads[t].op;
    OthersUndisturbed(cfg, s, s', t, s'.threads[t]);
    if s'.threads[t].Done? {
      TakesEffect(cfg, s, s', t, op, None);
    } else {
      StillPending(s, s', t, s'.threads[t]);
    }
  }

  lemma AcquireStep(cfg: Config, s: State, t: Thread)
    requires Inv(cfg, s) && Enabled(cfg, s, Acquire(t))
    ensures var s' := Apply(cfg, s, Acquire(t)); Inv(cfg, s') && Abs(s') == Abs(s)
  {
    var s' := Apply(cfg, s, Acquire(t));
    StillPending(s, s', t, s'.threads[t]);
    OthersUndisturbed(cfg, s, s', t, s'.threads[t]);
  }

  /** Shrinking the map keeps the bound and the origin of what remains. */
  lemma Shrink(cfg: Config, issued: set<Op>, entries: Entries, k: string)
    requires WithinBound(cfg, entries) && AllFromSets(cfg, issued, entries)
    ensures WithinBound(cfg, entries - {k}) && AllFromSets(cfg, issued, entries - {k})
  {
    assert (entries - {k}).Keys == entries.Keys - {k};
    SubsetSize((entries - {k}).Keys, entries.Keys);
  }

  lemma InspectOutcome(cfg: Config, s: State, t: Thread)
    requires Inv(cfg, s) && Enabled(cfg, s, Inspect(t))
    ensures var s' := Apply(cfg, s, Inspect(t)); ThreadInv(cfg, s', t, s'.threads[t])
  {
    var s' := Apply(cfg, s, Inspect(t));
    var op, pc := s.threads[t].op, s'.threads[t];
    assert ThreadInv(cfg, s, t, s.threads[t]);
    assert (pc.reply, s'.entries) == AtomicGet(cfg, s.committed, op.key, op.now);
    if pc.reply.Some? {
      assert FromSet(cfg, s.issued, op.key, s.entries[op.key]);
      assert HitOk(cfg, s.issued, op.key, op.now, s.entries[op.key].data);
    }
  }

  lemma InspectShrinks(cfg: Config, s: State, t: Thread)
    requires Inv(cfg, s) && Enabled(cfg, s, Inspect(t))
    ensures
      var s' := Apply(cfg, s, Inspect(t));
      && WithinBound(cfg, s'.entries) && AllFromSets(cfg, s'.issued, s'.entries)
      && s' == s.(entries := s'.entries, threads := s'.threads)
  {
    Shrink(cfg, s.issued, s.entries, s.threads[t].op.key);
  }

  lemma InspectPending(cfg: Config, s: State, t: Thread)
    requires Enabled(cfg, s, Inspect(t))
    ensures Abs(Apply(cfg, s, Inspect(t))) == Abs(s)
  {
    var s' := Apply(cfg, s, Inspect(t));
    StillPending(s, s', t, s'.threads[t]);
  }

  lemma InspectStep(cfg: Config, s: State, t: Thread)
    requires Inv(cfg, s) && Enabled(cfg, s, Inspect(t))
    ensures var s' := Apply(cfg, s, Inspect(t)); Inv(cfg, s') && Abs(s') == Abs(s)
  {
    var s' := Apply(cfg, s, Inspect(t));
    OthersUndisturbed(cfg, s, s', t, s'.threads[t]);
    InspectOutcome(cfg, s, t);
    InspectShrinks(cfg, s, t);
    InspectPending(cfg, s, t);
  }

  lemma EvictStep(cfg: Config, s: State, t: Thread, victim: string)
    requires Inv(cfg, s) && Enabled(cfg, s, Evict(t, victim))
    ensures var s' := Apply(cfg, s, Evict(t, victim)); Inv(cfg, s') && Abs(s') == Abs(s)
  {
    var s' := Apply(cfg, s, Evict(t, victim));
    StillPending(s, s', t, s'.threads[t]);
    OthersUndisturbed(cfg, s, s', t, s'.threads[t]);
    Shrink(cfg, s.issued, s.entries, victim);
  }

  lemma InsertStep(cfg: Config, s: State, t: Thread)
    requires Inv(cfg, s) && Enabled(cfg, s, Insert(t))
    ensures var s' := Apply(cfg, s, Insert(t)); Inv(cfg, s') && Abs(s') == Abs(s)
  {
    var s' := Apply(cfg, s, Insert(t));
    StillPending(s, s', t, s'.threads[t]);
    var op := s.threads[t].op;
    OthersUndisturbed(cfg, s, s', t, s'.threads[t]);
    RoomIsEnough(cfg, s.committed, s.entries, op.key, EntryFor(cfg, op));
    InsertedIntoRoom(cfg, s.committed, s.entries, op.key, op.data, op.insertedAt, op.signedNextUpdate);
    assert FromSet(cfg, s.issued, op.key, EntryFor(cfg, op));
    assert AllFromSets(cfg, s.issued, s'.entries);
  }

  lemma SetGaugeOutcome(cfg: Config, s: State, t: Thread)
    requires t in s.threads && s.threads[t].Written? && ThreadInv(cfg, s, t, s.threads[t])
    ensures var s' := Apply(cfg, s, SetGauge(t)); ThreadInv(cfg, s', t, s'.threads[t])
  {
  }

  lemma SetGaugeStep(cfg: Config, s: State, t: Thread)
    requires Inv(cfg, s) && Enabled(cfg, s, SetGauge(t))
    ensures var s' := Apply(cfg, s, SetGauge(t)); Inv(cfg, s') && Abs(s') == Abs(s)
  {
    var s' := Apply(cfg, s, SetGauge(t));
    SetGaugeOutcome(cfg, s, t);
    StillPending(s, s', t, s'.threads[t]);
    OthersUndisturbed(cfg, s, s', t, s'.threads[t]);
  }

  /** A goroutine that took the write lock performs its whole call inside that critical section. */
  lemma ReleaseStep(cfg: Config, s: State, t: Thread)
    requires Inv(cfg, s) && Enabled(cfg, s, Release(t))
    ensures var s' := Apply(cfg, s, Release(t)); Inv(cfg, s') && AtomicStep(cfg, Abs(s), Abs(s'))
  {
    var s' := Apply(cfg, s, Release(t));
    var pc := s.threads[t];
    OthersUndisturbed(cfg, s, s', t, s'.threads[t]);
    TakesEffect(cfg, s, s', t, pc.op, pc.reply);
  }

  lemma StepRefines(cfg: Config, s: State, s': State)
    requires Inv(cfg, s) && Next(cfg, s, s')
    ensures Inv(cfg, s') && AtomicStep(cfg, Abs(s), Abs(s'))
  {
    var a :| Enabled(cfg, s, a) && s' == Apply(cfg, s, a);
    match a
    case Begin(t, op) => BeginStep(cfg, s, t, op);
    case Read(t) => ReadStep(cfg, s, t);
    case Guard(t) => GuardStep(cfg, s, t);
    case Acquire(t) => AcquireStep(cfg, s, t);
    case Inspect(t) => InspectStep(cfg, s, t);
    case Evict(t, victim) => EvictStep(cfg, s, t, victim);
    case Insert(t) => InsertStep(cfg, s, t);
    case SetGauge(t) => SetGaugeStep(cfg, s, t);
    case Release(t) => ReleaseStep(cfg, s, t);
  }

  /** Only `Begin` changes which operation a goroutine is performing, or adds to the history. */
  lemma CallsKept(cfg: Config, s: State, a: Action)
    requires Enabled(cfg, s, a) && !a.Begin?
    ensures Apply(cfg, s, a).issued == s.issued
    ensures Apply(cfg, s, a).threads.Keys == s.threads.Keys
    ensures forall t: Thread :: t in s.threads ==> Apply(cfg, s, a).threads[t].op == s.threads[t].op
  {
  }

  // ---- Whole runs ----

  ghost predicate Linked(cfg: Config, run: seq<State>, i: nat)
    requires i + 1 < |run|
  {
    Next(cfg, run[i], run[i + 1])
  }

  ghost predicate IsRun(cfg: Config, run: seq<State>) {
    run != [] && Init(run[0]) && forall i: nat :: i < |run| - 1 ==> Linked(cfg, run, i)
  }

  lemma {:induction false} RunInv(cfg: Config, run: seq<State>, i: nat)
    requires IsRun(cfg, run) && i < |run|
    ensures Inv(cfg, run[i])
  {
    if i > 0 {
      RunInv(cfg, run, i - 1);
      assert Linked(cfg, run, i - 1);
      StepRefines(cfg, run[i - 1], run[i]);
    }
  }

  /** Every interleaving is, step for step, a run of the cache whose calls are atomic. */
  lemma RunRefinesAtomicCache(cfg: Config, run: seq<State>, i: nat)
    requires IsRun(cfg, run) && i + 1 < |run|
    ensures Abs(run[0]) == AtomicState(map[], map[])
    ensures AtomicStep(cfg, Abs(run[i]), Abs(run[i + 1]))
  {
    RunInv(cfg, run, i);
    assert Abs(run[0]).threads == map[];
    assert Linked(cfg, run, i);
    StepRefines(cfg, run[i], run[i + 1]);
  }

  /**
   At every moment of every run the cache holds at most `maxEntries` entries, the gauge shows their
   number whenever nobody holds the write lock, at most one goroutine holds it, and each entry was
   written by a set with insertedAt < expiresAt <= insertedAt + ttl, not after its signed deadline.
   */
  lemma RunKeepsBounds(cfg: Config, run: seq<State>, i: nat)
    requires IsRun(cfg, run) && i < |run|
    ensures WithinBound(cfg, run[i].entries)
    ensures run[i].writer.None? ==> GaugeAgrees(cfg, run[i].gauge, run[i].entries)
    ensures forall t: Thread, u: Thread |
              && t in run[i].threads && u in run[i].threads
              && Inside(run[i].threads[t]) && Inside(run[i].threads[u]) :: t == u
    ensures forall k :: k in run[i].entries ==>
              exists op :: op in run[i].issued && op.Set? && op.key == k && op.data == run[i].entries[k].data
                && op.insertedAt.wall < WallOf(run[i].entries[k].expiresAt) <= op.insertedAt.wall + cfg.ttl
                && (op.signedNextUpdate != ZERO_TIME ==> WallOf(run[i].entries[k].expiresAt) <= op.signedNextUpdate)
  {
    RunInv(cfg, run, i);
    forall k | k in run[i].entries
      ensures exists op :: op in run[i].issued && op.Set? && op.key == k && op.data == run[i].entries[k].data
                && op.insertedAt.wall < WallOf(run[i].entries[k].expiresAt) <= op.insertedAt.wall + cfg.ttl
                && (op.signedNextUpdate != ZERO_TIME ==> WallOf(run[i].entries[k].expiresAt) <= op.signedNextUpdate)
    {
      assert FromSet(cfg, run[i].issued, k, run[i].entries[k]);
    }
  }

  /**
   A lookup never drops anything but its own key, and that only if the entry it drops, as it stands
   under the write lock, is expired at the lookup's own clock reading. A replacement that is still
   fresh is answered instead.
   */
  lemma GetDropsOnlyExpired(cfg: Config, run: seq<State>, i: nat, t: Thread, k: string)
    requires IsRun(cfg, run) && i + 1 < |run|
    requires t in run[i].threads && run[i].threads[t].op.Get? && Inside(run[i].threads[t])
    requires k in run[i].entries
    requires k !in run[i + 1].entries || run[i + 1].entries[k] != run[i].entries[k]
    ensures k == run[i].threads[t].op.key
    ensures !Live(run[i].threads[t].op.now, run[i].entries[k].expiresAt)
  {
    RunInv(cfg, run, i);
    assert Linked(cfg, run, i);
    var s, s' := run[i], run[i + 1];
    var a :| Enabled(cfg, s, a) && s' == Apply(cfg, s, a);
    if a.Inspect? || a.Evict? || a.Insert? {
      assert ThreadInv(cfg, s, t, s.threads[t]) && ThreadInv(cfg, s, a.t, s.threads[a.t]);
      assert a.t == t;
    }
  }

  /** A hit is always unexpired at the call's clock reading, and returns bytes set for that very key. */
  lemma HitIsUnexpired(cfg: Config, run: seq<State>, i: nat, t: Thread)
    requires IsRun(cfg, run) && i < |run| && t in run[i].threads
    requires run[i].threads[t].Done? && run[i].threads[t].op.Get? && run[i].threads[t].reply.Some?
    ensures HitOk(cfg, run[i].issued, run[i].threads[t].op.key, run[i].threads[t].op.now,
                  run[i].threads[t].reply.value)
  {
    RunInv(cfg, run, i);
  }

  /** Only the release of the write lock changes the entries visible to others. */
  lemma ReleaseReveals(cfg: Config, s: State, a: Action)
    requires Enabled(cfg, s, a) && Apply(cfg, s, a).committed != s.committed
    ensures a.Release?
  {
  }

  /** What a set that releases the write lock has done to the entries visible to others. */
  ghost predicate Inserted(cfg: Config, before: Entries, after: Entries, key: string) {
    && |before.Keys - after.Keys| <= 1 && after.Keys <= before.Keys + {key}
    && (forall k :: k in after && k != key ==> k in before && after[k] == before[k])
    && (|before| < cfg.maxEntries ==> before.Keys <= after.Keys)
  }

  /** The goroutine that releases the write lock held it, and if it performed a set has inserted its key. */
  ghost predicate Released(cfg: Config, s: State, s': State) {
    && s.writer.Some? && s'.writer.None? && s.writer.value in s.threads && s.threads[s.writer.value].Releasing?
    && var op := s.threads[s.writer.value].op;
       op.Set? ==> Inserted(cfg, s.committed, s'.committed, op.key)
  }

  lemma ReleaseInserts(cfg: Config, s: State, t: Thread)
    requires Inv(cfg, s) && Enabled(cfg, s, Release(t))
    ensures Released(cfg, s, Apply(cfg, s, Release(t)))
  {
    var op := s.threads[t].op;
    assert ThreadInv(cfg, s, t, s.threads[t]);
    if op.Set? {
      SetLosesAtMostOne(cfg, s.committed, op.key, op.data, op.insertedAt, op.signedNextUpdate, s.entries);
    }
  }

  /**
   In every run the entries visible to others change only when the holder of the write lock releases it, and
   a set has then lost at most one key other than its own, none if there was room, and changed no other entry.
   */
  lemma SetReleaseLosesAtMostOne(cfg: Config, run: seq<State>, i: nat)
    requires IsRun(cfg, run) && i + 1 < |run| && run[i + 1].committed != run[i].committed
    ensures Released(cfg, run[i], run[i + 1])
  {
    RunInv(cfg, run, i);
    assert Linked(cfg, run, i);
    var a :| Enabled(cfg, run[i], a) && run[i + 1] == Apply(cfg, run[i], a);
    ReleaseReveals(cfg, run[i], a);
    ReleaseInserts(cfg, run[i], a.t);
  }
}
