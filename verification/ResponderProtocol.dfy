/**
 Any number of concurrent requests through `Handle`, interleaved with each other, with every lock-level
 step of the cache, and with a wall clock that may be stepped either way. The source is the Go interface: an oracle
 whose answers are recorded in `answers`. The modules about the file and HTTP sources say where those come from.
 */
module ResponderProtocol {
  import opened Types
  import opened Signer
  import opened SerialText
  import opened Responder
  import RC = ResponseCache
  import C = CacheProtocol

  datatype Config = Config(cache: RC.Config, validity: Duration)

  /** A completed source call: whose, for which serial, with what result, at which wall time. */
  datatype Answer = Answer(thread: Thread, serial: int, result: SourceResult, at: Time)

  datatype Via = FromCache(at: Reading) | FromSource(k: nat)

  /** Where a request is inside `Handle`; `k` indexes the source answer it is working from. */
  datatype Req =
    | Arrived(serial: int)
    | Looking(serial: int)                         // inside cache.get
    | Asking(serial: int)                          // inside source.GetStatus
    | Answered(serial: int, k: nat)
    | HasResponse(serial: int, k: nat, issued: Issued)
    | Storing(serial: int, k: nat, der: Signed)    // inside cache.set
    | Replied(serial: int, der: Signed, via: Via)
    | Failed(fault: Fault)

  datatype State = State(now: Reading, cache: C.State, reqs: map<Thread, Req>, answers: seq<Answer>)

  datatype Action =
    | Tick(time: Reading)
    | Arrive(t: Thread, intake: Result<int>)
    | Lookup(t: Thread)
    | CacheStep(a: C.Action)
    | Resolve(t: Thread)
    | Return(t: Thread, result: SourceResult)
    | Sign(t: Thread, signs: bool)
    | Store(t: Thread)
    | Reply(t: Thread)

  predicate Init(s: State) { C.Init(s.cache) && s.reqs == map[] && s.answers == [] }

  predicate CacheDone(s: State, t: Thread) { t in s.cache.threads && s.cache.threads[t].Done? }

  predicate Enabled(cfg: Config, s: State, a: Action) {
    match a
    case Tick(time) => s.now.mono <= time.mono
    case Arrive(t, _) => t !in s.reqs
    case Lookup(t) =>
      && t in s.reqs && s.reqs[t].Arrived?
      && C.Enabled(cfg.cache, s.cache, C.Begin(t, C.Get(Decimal(s.reqs[t].serial), s.now)))
    case CacheStep(ca) => !ca.Begin? && C.Enabled(cfg.cache, s.cache, ca)
    case Resolve(t) => t in s.reqs && s.reqs[t].Looking? && CacheDone(s, t) && s.cache.threads[t].op.Get?
    case Return(t, _) => t in s.reqs && s.reqs[t].Asking?
    case Sign(t, _) => t in s.reqs && s.reqs[t].Answered? && s.reqs[t].k < |s.answers|
    case Store(t) =>
      && t in s.reqs && s.reqs[t].HasResponse?
      && C.Enabled(cfg.cache, s.cache, C.Begin(t, SetFor(s, t)))
    case Reply(t) => t in s.reqs && s.reqs[t].Storing? && CacheDone(s, t)
  }

  function SetFor(s: State, t: Thread): C.Op
    requires t in s.reqs && s.reqs[t].HasResponse?
  {
    var r := s.reqs[t];
    C.Set(Decimal(r.serial), r.issued.der, s.now, r.issued.nextUpdate)
  }

  function Apply(cfg: Config, s: State, a: Action): State
    requires Enabled(cfg, s, a)
  {
    match a
    case Tick(time) => s.(now := time)
    case Arrive(t, intake) =>
      s.(reqs := s.reqs[t := if intake.Ok? then Arrived(intake.value) else Failed(intake.fault)])
    case Lookup(t) =>
      var serial := s.reqs[t].serial;
      s.(cache := C.Apply(cfg.cache, s.cache, C.Begin(t, C.Get(Decimal(serial), s.now))),
         reqs := s.reqs[t := Looking(serial)])
    case CacheStep(ca) => s.(cache := C.Apply(cfg.cache, s.cache, ca))
    case Resolve(t) =>
      var serial, pc := s.reqs[t].serial, s.cache.threads[t];
      s.(reqs := s.reqs[t := if pc.reply.Some? then Replied(serial, pc.reply.value, FromCache(pc.op.now))
                             else Asking(serial)])
    case Return(t, result) =>
      var serial := s.reqs[t].serial;
      s.(answers := s.answers + [Answer(t, serial, result, s.now.wall)],
         reqs := s.reqs[t := Answered(serial, |s.answers|)])
    case Sign(t, signs) =>
      var r := s.reqs[t];
      var made := ResponseFor(cfg.validity, r.serial, s.answers[r.k].result, s.now.wall, signs);
      s.(reqs := s.reqs[t := if made.Ok? then HasResponse(r.serial, r.k, made.value) else Failed(made.fault)])
    case Store(t) =>
      var r := s.reqs[t];
      s.(cache := C.Apply(cfg.cache, s.cache, C.Begin(t, SetFor(s, t))),
         reqs := s.reqs[t := Storing(r.serial, r.k, r.issued.der)])
    case Reply(t) =>
      var r := s.reqs[t];
      s.(reqs := s.reqs[t := Replied(r.serial, r.der, FromSource(r.k))])
  }

  ghost predicate Next(cfg: Config, s: State, s': State) {
    exists a :: Enabled(cfg, s, a) && s' == Apply(cfg, s, a)
  }

  // ---- Invariant; `forward` adds what a wall clock that never runs backwards gives ----

  /** `der` answers `serial` with the `k`th source answer. */
  predicate From(cfg: Config, answers: seq<Answer>, k: nat, serial: int, der: Signed) {
    k < |answers| && answers[k].serial == serial && Answers(cfg.validity, serial, answers[k].result, der)
  }

  /** The `k`th answer is the one that request `t` itself obtained, for `serial`. */
  predicate Own(s: State, t: Thread, k: nat, serial: int) {
    k < |s.answers| && s.answers[k].thread == t && s.answers[k].serial == serial
  }

  /** Request `t` made `der` from the `k`th answer, its own. */
  predicate MadeFrom(cfg: Config, forward: bool, s: State, t: Thread, k: nat, serial: int, der: Signed) {
    && Own(s, t, k, serial) && From(cfg, s.answers, k, serial, der)
    && (forward ==> s.answers[k].at <= der.thisUpdate)
  }

  predicate InCache(s: State, t: Thread) { t in s.cache.threads }

  ghost predicate ReqOk(cfg: Config, forward: bool, s: State, t: Thread, r: Req) {
    match r
    case Looking(serial) =>
      InCache(s, t) && s.cache.threads[t].op.Get? && s.cache.threads[t].op.key == Decimal(serial)
    case Answered(serial, k) =>
      Own(s, t, k, serial) && (forward ==> s.answers[k].at <= s.now.wall)
    case HasResponse(serial, k, issued) =>
      && MadeFrom(cfg, forward, s, t, k, serial, issued.der)
      && issued.nextUpdate == issued.der.nextUpdate
      && (forward ==> issued.der.thisUpdate <= s.now.wall)
    case Storing(serial, k, der) => MadeFrom(cfg, forward, s, t, k, serial, der)
    case Replied(serial, der, FromSource(k)) => MadeFrom(cfg, forward, s, t, k, serial, der)
    case Replied(serial, der, FromCache(at)) => C.HitOk(cfg.cache, s.cache.issued, Decimal(serial), at, der)
    case _ => true
  }

  ghost predicate Inv(cfg: Config, forward: bool, s: State) {
    && C.Inv(cfg.cache, s.cache)
    && forall t: Thread :: t in s.reqs ==> ReqOk(cfg, forward, s, t, s.reqs[t])
  }

  /** Time and history only grow. */
  predicate Grows(forward: bool, s: State, s': State) {
    && (forward ==> s.now.wall <= s'.now.wall)
    && s.answers <= s'.answers
    && s.cache.issued <= s'.cache.issued
  }

  /** The cache call of `t` is still the same call. */
  predicate SameCall(s: State, s': State, t: Thread) {
    InCache(s, t) ==> InCache(s', t) && s'.cache.threads[t].op == s.cache.threads[t].op
  }

  lemma HitStays(cfg: Config, issued: set<C.Op>, more: set<C.Op>, key: string, at: Reading, der: Signed)
    requires issued <= more && C.HitOk(cfg.cache, issued, key, at, der)
    ensures C.HitOk(cfg.cache, more, key, at, der)
  {
    var op :| op in issued && C.OpStorable(cfg.cache, op) && op.key == key && op.data == der
              && RC.Live(at, C.EntryFor(cfg.cache, op).expiresAt);
    assert op in more;
  }

  lemma ReqGrows(cfg: Config, forward: bool, s: State, s': State, t: Thread, r: Req)
    requires Grows(forward, s, s') && ReqOk(cfg, forward, s, t, r) && SameCall(s, s', t)
    ensures ReqOk(cfg, forward, s', t, r)
  {
    if r.Replied? && r.via.FromCache? {
      HitStays(cfg, s.cache.issued, s'.cache.issued, Decimal(r.serial), r.via.at, r.der);
    }
  }

  /** Every request but `t` carries over. */
  lemma Carries(cfg: Config, forward: bool, s: State, s': State, t: Thread, r: Req)
    requires forall u: Thread :: u in s.reqs ==> ReqOk(cfg, forward, s, u, s.reqs[u])
    requires Grows(forward, s, s') && s'.reqs == s.reqs[t := r] && ReqOk(cfg, forward, s', t, r)
    requires forall u: Thread :: u != t ==> SameCall(s, s', u)
    ensures forall u: Thread :: u in s'.reqs ==> ReqOk(cfg, forward, s', u, s'.reqs[u])
  {
    forall u: Thread | u in s'.reqs ensures ReqOk(cfg, forward, s', u, s'.reqs[u]) {
      if u != t { ReqGrows(cfg, forward, s, s', u, s.reqs[u]); }
    }
  }

  // ---- Each kind of step keeps it ----

  lemma TickStep(cfg: Config, forward: bool, s: State, time: Reading)
    requires Inv(cfg, forward, s) && Enabled(cfg, s, Tick(time)) && (forward ==> s.now.wall <= time.wall)
    ensures Inv(cfg, forward, Apply(cfg, s, Tick(time)))
  {
    var s' := Apply(cfg, s, Tick(time));
    forall u: Thread | u in s'.reqs ensures ReqOk(cfg, forward, s', u, s'.reqs[u]) {
      ReqGrows(cfg, forward, s, s', u, s.reqs[u]);
    }
  }

  lemma CacheStepStep(cfg: Config, forward: bool, s: State, ca: C.Action)
    requires Inv(cfg, forward, s) && Enabled(cfg, s, CacheStep(ca))
    ensures Inv(cfg, forward, Apply(cfg, s, CacheStep(ca)))
  {
    var s' := Apply(cfg, s, CacheStep(ca));
    assert C.Inv(cfg.cache, s'.cache) by {
      assert C.Next(cfg.cache, s.cache, s'.cache);
      C.StepRefines(cfg.cache, s.cache, s'.cache);
    }
    C.CallsKept(cfg.cache, s.cache, ca);
    forall u: Thread | u in s'.reqs ensures ReqOk(cfg, forward, s', u, s'.reqs[u]) {
      ReqGrows(cfg, forward, s, s', u, s.reqs[u]);
    }
  }

  lemma LookupStep(cfg: Config, forward: bool, s: State, t: Thread)
    requires Inv(cfg, forward, s) && Enabled(cfg, s, Lookup(t))
    ensures Inv(cfg, forward, Apply(cfg, s, Lookup(t)))
  {
    var s' := Apply(cfg, s, Lookup(t));
    C.BeginStep(cfg.cache, s.cache, t, C.Get(Decimal(s.reqs[t].serial), s.now));
    Carries(cfg, forward, s, s', t, s'.reqs[t]);
  }

  lemma ResolveStep(cfg: Config, forward: bool, s: State, t: Thread)
    requires Inv(cfg, forward, s) && Enabled(cfg, s, Resolve(t))
    ensures Inv(cfg, forward, Apply(cfg, s, Resolve(t)))
  {
    var s', pc := Apply(cfg, s, Resolve(t)), s.cache.threads[t];
    if pc.reply.Some? {
      assert ReqOk(cfg, forward, s, t, s.reqs[t]);
      assert C.ThreadInv(cfg.cache, s.cache, t, pc);
      assert C.HitOk(cfg.cache, s.cache.issued, pc.op.key, pc.op.now, pc.reply.value);
    }
    Carries(cfg, forward, s, s', t, s'.reqs[t]);
  }

  lemma ReturnStep(cfg: Config, forward: bool, s: State, t: Thread, result: SourceResult)
    requires Inv(cfg, forward, s) && Enabled(cfg, s, Return(t, result))
    ensures Inv(cfg, forward, Apply(cfg, s, Return(t, result)))
  {
    var s' := Apply(cfg, s, Return(t, result));
    Carries(cfg, forward, s, s', t, s'.reqs[t]);
  }

  lemma SignStep(cfg: Config, forward: bool, s: State, t: Thread, signs: bool)
    requires Inv(cfg, forward, s) && Enabled(cfg, s, Sign(t, signs))
    ensures Inv(cfg, forward, Apply(cfg, s, Sign(t, signs)))
  {
    var s' := Apply(cfg, s, Sign(t, signs));
    assert ReqOk(cfg, forward, s, t, s.reqs[t]);
    Carries(cfg, forward, s, s', t, s'.reqs[t]);
  }

  lemma StoreStep(cfg: Config, forward: bool, s: State, t: Thread)
    requires Inv(cfg, forward, s) && Enabled(cfg, s, Store(t))
    ensures Inv(cfg, forward, Apply(cfg, s, Store(t)))
  {
    var s' := Apply(cfg, s, Store(t));
    assert ReqOk(cfg, forward, s, t, s.reqs[t]);
    C.BeginStep(cfg.cache, s.cache, t, SetFor(s, t));
    Carries(cfg, forward, s, s', t, s'.reqs[t]);
  }

  lemma SimpleStep(cfg: Config, forward: bool, s: State, a: Action)
    requires Inv(cfg, forward, s) && Enabled(cfg, s, a) && (a.Arrive? || a.Reply?)
    ensures Inv(cfg, forward, Apply(cfg, s, a))
  {
    var s' := Apply(cfg, s, a);
    if a.Reply? { assert ReqOk(cfg, forward, s, a.t, s.reqs[a.t]); }
    Carries(cfg, forward, s, s', a.t, s'.reqs[a.t]);
  }

  lemma StepKeepsInv(cfg: Config, forward: bool, s: State, s': State)
    requires Inv(cfg, forward, s) && Next(cfg, s, s') && (forward ==> s.now.wall <= s'.now.wall)
    ensures Inv(cfg, forward, s')
  {
    var a :| Enabled(cfg, s, a) && s' == Apply(cfg, s, a);
    match a
    case Tick(time) => TickStep(cfg, forward, s, time);
    case Arrive(_, _) => SimpleStep(cfg, forward, s, a);
    case Lookup(t) => LookupStep(cfg, forward, s, t);
    case CacheStep(ca) => CacheStepStep(cfg, forward, s, ca);
    case Resolve(t) => ResolveStep(cfg, forward, s, t);
    case Return(t, result) => ReturnStep(cfg, forward, s, t, result);
    case Sign(t, signs) => SignStep(cfg, forward, s, t, signs);
    case Store(t) => StoreStep(cfg, forward, s, t);
    case Reply(_) => SimpleStep(cfg, forward, s, a);
  }

  /**
   A request that has its source answer goes on to reply, unless the key does not sign or the status has no
   OCSP form; a failed source makes it reply `unknown`, signed at the wall time of that step.
   */
  lemma SignAnswers(cfg: Config, s: State, t: Thread, signs: bool)
    requires Enabled(cfg, s, Sign(t, signs))
    ensures
      var r, result := s.reqs[t], s.answers[s.reqs[t].k].result;
      var r' := Apply(cfg, s, Sign(t, signs)).reqs[t];
      && (r'.HasResponse? <==> signs && (NoStatus(result) || !result.value.value.status.Other?))
      && (!r'.HasResponse? ==> r'.Failed?)
      && (r'.HasResponse? ==>
            && r'.serial == r.serial && r'.k == r.k && r'.issued.der.thisUpdate == s.now.wall
            && Answers(cfg.validity, r.serial, result, r'.issued.der)
            && (NoStatus(result) ==> r'.issued.der.status == Unknown))
  {
    var r := s.reqs[t];
    ResponseExists(cfg.validity, r.serial, s.answers[r.k].result, s.now.wall, signs);
  }

  // ---- Whole runs ----

  /** A step, or a moment in which only the rest of the system moves. */
  ghost predicate Step(cfg: Config, s: State, s': State) { s == s' || Next(cfg, s, s') }

  ghost predicate Linked(cfg: Config, run: seq<State>, i: nat)
    requires i + 1 < |run|
  {
    Step(cfg, run[i], run[i + 1])
  }

  ghost predicate IsRun(cfg: Config, run: seq<State>) {
    run != [] && Init(run[0]) && forall i: nat :: i < |run| - 1 ==> Linked(cfg, run, i)
  }

  /** The wall clock never runs backwards. */
  predicate ClockForward(run: seq<State>) {
    forall i :: 0 <= i < |run| - 1 ==> run[i].now.wall <= run[i + 1].now.wall
  }

  lemma {:induction false} RunInv(cfg: Config, forward: bool, run: seq<State>, i: nat)
    requires IsRun(cfg, run) && i < |run| && (forward ==> ClockForward(run))
    ensures Inv(cfg, forward, run[i])
  {
    if i == 0 {
      InitInv(cfg, forward, run[0]);
    } else {
      RunInv(cfg, forward, run, i - 1);
      RunStep(cfg, forward, run, i - 1);
    }
  }

  lemma InitInv(cfg: Config, forward: bool, s: State)
    requires Init(s)
    ensures Inv(cfg, forward, s)
  {
  }

  lemma RunStep(cfg: Config, forward: bool, run: seq<State>, i: nat)
    requires IsRun(cfg, run) && i + 1 < |run| && (forward ==> ClockForward(run))
    requires Inv(cfg, forward, run[i])
    ensures Inv(cfg, forward, run[i + 1])
  {
    assert Linked(cfg, run, i);
    if run[i + 1] != run[i] { StepKeepsInv(cfg, forward, run[i], run[i + 1]); }
  }

  // ---- Rejected requests ----

  /** Request `t` was rejected and has touched neither the cache nor the source. */
  predicate Rejected(s: State, t: Thread, fault: Fault) {
    && t in s.reqs && s.reqs[t] == Failed(fault) && !InCache(s, t)
    && forall k :: 0 <= k < |s.answers| ==> s.answers[k].thread != t
  }

  /** A goroutine without a request is in no cache call and has no answer. */
  predicate Absent(s: State, t: Thread) {
    t !in s.reqs && !InCache(s, t) && forall k :: 0 <= k < |s.answers| ==> s.answers[k].thread != t
  }

  lemma RejectedMoves(cfg: Config, s: State, a: Action, t: Thread, fault: Fault)
    requires Enabled(cfg, s, a)
    ensures Rejected(s, t, fault) ==> Rejected(Apply(cfg, s, a), t, fault)
    ensures Absent(s, t) && a == Arrive(t, Err(fault)) ==> Rejected(Apply(cfg, s, a), t, fault)
    ensures Absent(s, t) && !(a.Arrive? && a.t == t) ==> Absent(Apply(cfg, s, a), t)
  {
    if a.CacheStep? { C.CallsKept(cfg.cache, s.cache, a.a); }
  }

  lemma {:induction false} AbsentUntilArrival(cfg: Config, run: seq<State>, n: nat, t: Thread)
    requires IsRun(cfg, run) && n < |run| && t !in run[n].reqs
    ensures Absent(run[n], t)
  {
    if n > 0 {
      var s, s' := run[n - 1], run[n];
      assert Linked(cfg, run, n - 1);
      if s != s' {
        var a :| Enabled(cfg, s, a) && s' == Apply(cfg, s, a);
        AbsentUntilArrival(cfg, run, n - 1, t);
        RejectedMoves(cfg, s, a, t, Cancelled);
      } else {
        AbsentUntilArrival(cfg, run, n - 1, t);
      }
    }
  }

  /** A request rejected on arrival fails with that fault for good, and never touches the cache or the source. */
  lemma {:induction false} RejectedBeforeAnything(
      cfg: Config, run: seq<State>, i: nat, n: nat, t: Thread, fault: Fault)
    requires IsRun(cfg, run) && i < n < |run| && Enabled(cfg, run[i], Arrive(t, Err(fault)))
    requires run[i + 1] == Apply(cfg, run[i], Arrive(t, Err(fault)))
    ensures Rejected(run[n], t, fault)
    decreases n
  {
    if i + 1 == n {
      AbsentUntilArrival(cfg, run, i, t);
      RejectedMoves(cfg, run[i], Arrive(t, Err(fault)), t, fault);
    } else {
      RejectedBeforeAnything(cfg, run, i, n - 1, t, fault);
      var s, s' := run[n - 1], run[n];
      assert Linked(cfg, run, n - 1);
      if s != s' {
        var a :| Enabled(cfg, s, a) && s' == Apply(cfg, s, a);
        RejectedMoves(cfg, s, a, t, fault);
      }
    }
  }

  // ---- The step in which a lookup read the clock ----

  /** In step `g` request `t` for `serial` read the clock as `at` and began its cache lookup. */
  predicate LookedUpAt(run: seq<State>, n: nat, g: nat, t: Thread, serial: int, at: Reading) {
    && g < n < |run| && t in run[g].reqs && run[g].reqs[t] == Arrived(serial) && run[g].now == at
    && t in run[g + 1].reqs && run[g + 1].reqs[t] == Looking(serial)
  }

  /** Request `t` is inside its cache lookup, or has been answered by it, for `serial` and at reading `at`. */
  predicate LooksAt(s: State, t: Thread, serial: int, at: Reading) {
    && t in s.reqs
    && match s.reqs[t]
       case Looking(x) =>
         x == serial && InCache(s, t) && s.cache.threads[t].op.Get? && s.cache.threads[t].op.now == at
       case Replied(x, _, FromCache(a)) => x == serial && a == at
       case _ => false
  }

  lemma LookStep(cfg: Config, s: State, a: Action, t: Thread, serial: int, at: Reading)
    requires Enabled(cfg, s, a) && LooksAt(Apply(cfg, s, a), t, serial, at)
    ensures LooksAt(s, t, serial, at)
      || (t in s.reqs && s.reqs[t] == Arrived(serial) && s.now == at && Apply(cfg, s, a).reqs[t] == Looking(serial))
  {
    if a.CacheStep? { C.CallsKept(cfg.cache, s.cache, a.a); }
  }

  lemma {:induction false} LookupMoment(cfg: Config, run: seq<State>, n: nat, t: Thread, serial: int, at: Reading)
    returns (g: nat)
    requires IsRun(cfg, run) && n < |run| && LooksAt(run[n], t, serial, at)
    ensures LookedUpAt(run, n, g, t, serial, at)
  {
    var s, s' := run[n - 1], run[n];
    assert Linked(cfg, run, n - 1);
    if s != s' {
      var a :| Enabled(cfg, s, a) && s' == Apply(cfg, s, a);
      LookStep(cfg, s, a, t, serial, at);
    }
    if LooksAt(s, t, serial, at) { g := LookupMoment(cfg, run, n - 1, t, serial, at); } else { g := n - 1; }
  }

  // ---- The step in which a request read the clock for its insertion ----

  /**
   Where a set comes from: in step `h` request `u` read the clock and began to store what it had made of the
   `k`th answer.
   */
  datatype Origin = Origin(op: C.Op, u: Thread, k: nat, h: nat)

  predicate StoredAt(run: seq<State>, n: nat, serial: int, o: Origin) {
    && o.h < n < |run| && o.u in run[o.h].reqs && run[o.h].reqs[o.u].HasResponse?
    && run[o.h].reqs[o.u].serial == serial && run[o.h].reqs[o.u].k == o.k
    && o.op == SetFor(run[o.h], o.u)
    && o.u in run[o.h + 1].reqs && run[o.h + 1].reqs[o.u] == Storing(serial, o.k, o.op.data)
  }

  lemma IssueStep(cfg: Config, s: State, a: Action, op: C.Op) returns (u: Thread)
    requires Enabled(cfg, s, a) && op.Set? && op in Apply(cfg, s, a).cache.issued && op !in s.cache.issued
    ensures u in s.reqs && s.reqs[u].HasResponse? && op == SetFor(s, u)
    ensures
      var s' := Apply(cfg, s, a);
      u in s'.reqs && s'.reqs[u] == Storing(s.reqs[u].serial, s.reqs[u].k, op.data)
  {
    if a.CacheStep? { C.CallsKept(cfg.cache, s.cache, a.a); }
    assert a.Store?;
    u := a.t;
  }

  lemma {:induction false} IssueMoment(cfg: Config, run: seq<State>, n: nat, op: C.Op) returns (serial: int, o: Origin)
    requires IsRun(cfg, run) && n < |run| && op.Set? && op in run[n].cache.issued
    ensures StoredAt(run, n, serial, o) && o.op == op
  {
    var s, s' := run[n - 1], run[n];
    assert Linked(cfg, run, n - 1);
    if op in s.cache.issued {
      serial, o := IssueMoment(cfg, run, n - 1, op);
    } else {
      var a :| Enabled(cfg, s, a) && s' == Apply(cfg, s, a);
      var u := IssueStep(cfg, s, a, op);
      serial, o := s.reqs[u].serial, Origin(op, u, s.reqs[u].k, n - 1);
    }
  }

  lemma AnswersStep(cfg: Config, run: seq<State>, n: nat)
    requires IsRun(cfg, run) && n + 1 < |run|
    ensures run[n].answers <= run[n + 1].answers && run[n].now.mono <= run[n + 1].now.mono
  {
    assert Linked(cfg, run, n);
  }

  /** Answers are only ever added, and the monotonic clock never runs backwards. */
  lemma {:induction false} HistoryGrows(cfg: Config, run: seq<State>, i: nat, n: nat)
    requires IsRun(cfg, run) && i <= n < |run|
    ensures run[i].answers <= run[n].answers && run[i].now.mono <= run[n].now.mono
    decreases n
  {
    if i < n {
      HistoryGrows(cfg, run, i, n - 1);
      AnswersStep(cfg, run, n - 1);
    }
  }

  /** A set stores what one request made of the answer to its own source call, for the serial of its key. */
  predicate SetFrom(cfg: Config, forward: bool, run: seq<State>, n: nat, serial: int, o: Origin) {
    && StoredAt(run, n, serial, o) && o.k < |run[o.h].answers|
    && o.op.key == Decimal(serial) && o.op.insertedAt == run[o.h].now && o.op.signedNextUpdate == o.op.data.nextUpdate
    && MadeFrom(cfg, forward, run[n], o.u, o.k, serial, o.op.data)
    && (forward ==> o.op.data.thisUpdate <= o.op.insertedAt.wall)
  }

  lemma SetBehind(cfg: Config, forward: bool, run: seq<State>, n: nat, op: C.Op) returns (serial: int, o: Origin)
    requires IsRun(cfg, run) && n < |run| && (forward ==> ClockForward(run))
    requires op.Set? && op in run[n].cache.issued
    ensures SetFrom(cfg, forward, run, n, serial, o) && o.op == op
  {
    serial, o := IssueMoment(cfg, run, n, op);
    RunInv(cfg, forward, run, o.h);
    assert ReqOk(cfg, forward, run[o.h], o.u, run[o.h].reqs[o.u]);
    HistoryGrows(cfg, run, o.h, n);
  }

  // ---- Main results ----

  /**
   What a reply rests on: the `k`th answer, which the request obtained itself, or a set and the answer of the
   request that issued it, found by the cache lookup of step `g`.
   */
  datatype Basis = Fresh(k: nat) | Cached(k: nat, o: Origin, g: nat)

  /** The request whose source call the reply of `t` rests on. */
  function Asker(t: Thread, b: Basis): Thread { if b.Fresh? then t else b.o.u }

  /** The reply of `t` rests on `b`. */
  ghost predicate Based(cfg: Config, forward: bool, run: seq<State>, n: nat, t: Thread, b: Basis) {
    && n < |run| && t in run[n].reqs && run[n].reqs[t].Replied?
    && var r := run[n].reqs[t];
       && MadeFrom(cfg, forward, run[n], Asker(t, b), b.k, r.serial, r.der)
       && match b
          case Fresh(k) => r.via == FromSource(k)
          case Cached(k, o, g) =>
            && r.via.FromCache? && LookedUpAt(run, n, g, t, r.serial, r.via.at)
            && o.k == k && o.op.Set? && o.op.data == r.der && o.op in run[n].cache.issued
            && SetFrom(cfg, forward, run, n, r.serial, o) && C.OpStorable(cfg.cache, o.op)
            && RC.Live(run[g].now, RC.ExpiryOf(cfg.cache, run[o.h].now, r.der.nextUpdate))
  }

  lemma HitBasis(cfg: Config, forward: bool, run: seq<State>, n: nat, t: Thread) returns (b: Basis)
    requires IsRun(cfg, run) && n < |run| && t in run[n].reqs && (forward ==> ClockForward(run))
    requires run[n].reqs[t].Replied? && run[n].reqs[t].via.FromCache?
    requires ReqOk(cfg, forward, run[n], t, run[n].reqs[t])
    ensures b.Cached? && Based(cfg, forward, run, n, t, b)
  {
    var r := run[n].reqs[t];
    var op :| op in run[n].cache.issued && C.OpStorable(cfg.cache, op) && op.key == Decimal(r.serial)
              && op.data == r.der && RC.Live(r.via.at, C.EntryFor(cfg.cache, op).expiresAt);
    var g := LookupMoment(cfg, run, n, t, r.serial, r.via.at);
    var serial, o := SetBehind(cfg, forward, run, n, op);
    DecimalInjective(r.serial, serial);
    b := Cached(o.k, o, g);
  }

  /**
   Every reply, in every interleaving, is the signed form of one source answer for the requested serial. A
   fresh reply rests on the request's own source call. A cached one was inserted by a request that made it
   from its own source call, and found unexpired at the clock reading of the request's own cache lookup.
   */
  lemma ReplyTraces(cfg: Config, forward: bool, run: seq<State>, n: nat, t: Thread) returns (b: Basis)
    requires IsRun(cfg, run) && n < |run| && t in run[n].reqs && run[n].reqs[t].Replied?
    requires forward ==> ClockForward(run)
    ensures Based(cfg, forward, run, n, t, b)
    ensures b.Cached? <==> run[n].reqs[t].via.FromCache?
  {
    RunInv(cfg, forward, run, n);
    var r := run[n].reqs[t];
    assert ReqOk(cfg, forward, run[n], t, r);
    if r.via.FromSource? { b := Fresh(r.via.k); } else { b := HitBasis(cfg, forward, run, n, t); }
  }

  /**
   What holds of a cached reply at the clock readings of the lookup and of the insertion. It is served before
   its signed deadline if the deadline came before the end of the TTL, or if the wall clock has since gained
   no more on the monotonic clock than lay between the two; its age is below the TTL on the clock that its
   expiry uses. With a wall clock that never runs backwards its deadline lies after its thisUpdate.
   */
  lemma CachedReplyWindow(cfg: Config, forward: bool, run: seq<State>, n: nat, t: Thread, b: Basis)
    requires Based(cfg, forward, run, n, t, b) && b.Cached?
    ensures
      var der, ttl, put, got := run[n].reqs[t].der, cfg.cache.ttl, run[b.o.h].now, run[b.g].now;
      && cfg.cache.enabled && ttl > 0
      && (if der.nextUpdate != ZERO_TIME && der.nextUpdate < put.wall + ttl
          then got.wall < put.wall + ttl else got.mono < put.mono + ttl)
      && (der.nextUpdate != ZERO_TIME ==>
            && (der.nextUpdate < put.wall + ttl || put.wall + ttl + Gain(put, got) <= der.nextUpdate
                || Gain(put, got) <= 0
                ==> got.wall < der.nextUpdate)
            && (forward ==> der.thisUpdate < der.nextUpdate))
  {
    var der := run[n].reqs[t].der;
    RC.StoredEntryWindow(cfg.cache, run[b.o.h].now, der.nextUpdate);
    RC.HitWindow(cfg.cache, run[b.o.h].now, der.nextUpdate, run[b.g].now);
  }

  /** What is known about a cached entry: the set that stored it and the source answer behind it. */
  predicate EntryFrom(cfg: Config, forward: bool, run: seq<State>, n: nat, key: string, e: RC.Entry, o: Origin) {
    && SetFrom(cfg, forward, run, n, e.data.serial, o) && key == Decimal(e.data.serial) && e.data == o.op.data
    && e.expiresAt == RC.ExpiryOf(cfg.cache, run[o.h].now, e.data.nextUpdate)
    && run[o.h].now.wall < RC.WallOf(e.expiresAt) <= run[o.h].now.wall + cfg.cache.ttl
    && (e.data.nextUpdate != ZERO_TIME ==> RC.WallOf(e.expiresAt) <= e.data.nextUpdate)
  }

  /** Every entry ever present in the cache is live when inserted, and its expiry exceeds neither of its deadlines. */
  lemma CachedEntriesTrace(cfg: Config, forward: bool, run: seq<State>, n: nat, key: string) returns (o: Origin)
    requires IsRun(cfg, run) && n < |run| && (forward ==> ClockForward(run))
    requires key in run[n].cache.entries
    ensures EntryFrom(cfg, forward, run, n, key, run[n].cache.entries[key], o)
  {
    RunInv(cfg, forward, run, n);
    var s, e, serial := run[n], run[n].cache.entries[key], 0;
    assert C.FromSet(cfg.cache, s.cache.issued, key, e);
    var op :| op in s.cache.issued && C.OpStorable(cfg.cache, op) && op.key == key && e == C.EntryFor(cfg.cache, op);
    serial, o := SetBehind(cfg, forward, run, n, op);
    ResponseIsFaithful(cfg.validity, serial, s.answers[o.k].result, e.data);
    RC.StoredEntryWindow(cfg.cache, op.insertedAt, op.signedNextUpdate);
  }
}
