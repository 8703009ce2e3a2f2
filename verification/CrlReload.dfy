/** Whole histories of reload ticks: what skipping on the digest preserves, and what the log records. */
module CrlReload {
  import opened Types
  import opened CrlSource

  /** One turn of the reload loop: what reading the CRL gave, and the clock reading of its expiry check. */
  datatype Turn = Turn(read: ReadOutcome, now: Time)

  function TickRun(cfg: Config, c: Core, turns: seq<Turn>): Core {
    if turns == [] then c
    else
      var n := |turns| - 1;
      Tick(cfg, TickRun(cfg, c, turns[..n]), turns[n].read, turns[n].now)
  }

  lemma TickRunSnoc(cfg: Config, c: Core, turns: seq<Turn>, turn: Turn)
    ensures TickRun(cfg, c, turns + [turn]) == Tick(cfg, TickRun(cfg, c, turns), turn.read, turn.now)
  {
    assert (turns + [turn])[..|turns|] == turns;
  }

  // ---- The digest shortcut ----

  /** What lookups and health see of the reload state. */
  datatype Serving = Serving(gen: Generation, loaded: bool)

  function View(c: Core): Serving { Serving(c.gen, c.loaded) }

  /** The reference reloader: no digest, every successful read is parsed. */
  function Reparse(cfg: Config, v: Serving, read: ReadOutcome): Serving {
    if read.ReadOk? && Load(cfg, read.bytes).Ok? then Serving(GenOf(Load(cfg, read.bytes).value), true)
    else v.(loaded := false)
  }

  function ReparseRun(cfg: Config, v: Serving, turns: seq<Turn>): Serving {
    if turns == [] then v
    else
      var n := |turns| - 1;
      Reparse(cfg, ReparseRun(cfg, v, turns[..n]), turns[n].read)
  }

  predicate Reads(turns: seq<Turn>, b: Bytes) { exists i :: 0 <= i < |turns| && turns[i].read == ReadOk(b) }

  /** No two different byte strings among the first load and the later reads share a digest. */
  ghost predicate NoCollision(cfg: Config, first: Bytes, turns: seq<Turn>) {
    forall x, y | (x == first || Reads(turns, x)) && (y == first || Reads(turns, y))
      :: cfg.digest(x) == cfg.digest(y) ==> x == y
  }

  /** The stored digest is that of bytes, already seen, whose CRL is the installed generation. */
  ghost predicate DigestInStep(cfg: Config, first: Bytes, turns: seq<Turn>, c: Core) {
    exists b :: (b == first || Reads(turns, b)) && cfg.digest(b) == c.lastHash
                && Load(cfg, b).Ok? && c.gen == GenOf(Load(cfg, b).value)
  }

  lemma {:induction false} DigestStaysInStep(cfg: Config, first: Bytes, start: Time, turns: seq<Turn>)
    requires !cfg.isUrl && Started(cfg, ReadOk(first), start).Ok?
    ensures DigestInStep(cfg, first, turns, TickRun(cfg, Started(cfg, ReadOk(first), start).value, turns))
  {
    if turns != [] {
      var n := |turns| - 1;
      DigestStaysInStep(cfg, first, start, turns[..n]);
      DigestInStepTick(cfg, first, turns, TickRun(cfg, Started(cfg, ReadOk(first), start).value, turns[..n]));
    }
  }

  lemma DigestInStepTick(cfg: Config, first: Bytes, turns: seq<Turn>, c: Core)
    requires !cfg.isUrl && turns != [] && DigestInStep(cfg, first, turns[..|turns| - 1], c)
    ensures
      var last := turns[|turns| - 1];
      DigestInStep(cfg, first, turns, Tick(cfg, c, last.read, last.now))
  {
    var n := |turns| - 1;
    PrefixReads(turns, n);
    var b :| (b == first || Reads(turns[..n], b)) && cfg.digest(b) == c.lastHash
             && Load(cfg, b).Ok? && c.gen == GenOf(Load(cfg, b).value);
    assert b == first || Reads(turns, b);
    assert turns[n].read.ReadOk? ==> Reads(turns, turns[n].read.bytes);
  }

  /**
   For every history of read errors, unusable CRLs, rollbacks and good CRLs, the reloader that skips on
   an unchanged digest serves, after each tick, exactly what a reloader that re-parses every time serves.
   */
  lemma {:induction false} SkippingRefinesReparsing(cfg: Config, first: Bytes, start: Time, turns: seq<Turn>)
    requires Started(cfg, ReadOk(first), start).Ok?
    requires cfg.isUrl || NoCollision(cfg, first, turns)
    ensures
      var c0 := Started(cfg, ReadOk(first), start).value;
      View(TickRun(cfg, c0, turns)) == ReparseRun(cfg, View(c0), turns)
  {
    var c0 := Started(cfg, ReadOk(first), start).value;
    if turns != [] {
      var n := |turns| - 1;
      var init, last := turns[..n], turns[n];
      assert !cfg.isUrl ==> NoCollision(cfg, first, init) by { PrefixReads(turns, n); }
      SkippingRefinesReparsing(cfg, first, start, init);
      var c := TickRun(cfg, c0, init);
      if last.read.ReadOk? && Skips(cfg, c, last.read.bytes) {
        DigestStaysInStep(cfg, first, start, init);
        PrefixReads(turns, n);
        var b :| (b == first || Reads(init, b)) && cfg.digest(b) == c.lastHash
                 && Load(cfg, b).Ok? && c.gen == GenOf(Load(cfg, b).value);
        assert turns[n].read == ReadOk(last.read.bytes) && Reads(turns, last.read.bytes);
        assert b == last.read.bytes;
      }
    }
  }

  lemma PrefixReads(turns: seq<Turn>, n: nat)
    requires n <= |turns|
    ensures forall b :: Reads(turns[..n], b) ==> Reads(turns, b)
  {
    forall b | Reads(turns[..n], b) ensures Reads(turns, b) {
      var i :| 0 <= i < n && turns[..n][i].read == ReadOk(b);
      assert turns[i].read == ReadOk(b);
    }
  }

  /** From every reachable state, one tick that reads a verifiable CRL puts that CRL into service. */
  lemma GoodReadRearms(cfg: Config, first: Bytes, start: Time, turns: seq<Turn>, b: Bytes, now: Time)
    requires Started(cfg, ReadOk(first), start).Ok? && Load(cfg, b).Ok?
    requires cfg.isUrl || NoCollision(cfg, first, turns + [Turn(ReadOk(b), now)])
    ensures
      var c := TickRun(cfg, Started(cfg, ReadOk(first), start).value, turns);
      View(Tick(cfg, c, ReadOk(b), now)) == Serving(GenOf(Load(cfg, b).value), true)
  {
    var all := turns + [Turn(ReadOk(b), now)];
    assert all[..|turns|] == turns;
    SkippingRefinesReparsing(cfg, first, start, all);
  }

  /** One tick departs from re-parsing exactly when it skips bytes that would not load the same CRL. */
  lemma CollisionKeepsOldCrl(cfg: Config, c: Core, b: Bytes, now: Time)
    requires !cfg.isUrl
    ensures
      View(Tick(cfg, c, ReadOk(b), now)) == Reparse(cfg, View(c), ReadOk(b))
      <==> (c.loaded && cfg.digest(b) == c.lastHash ==> Load(cfg, b).Ok? && GenOf(Load(cfg, b).value) == c.gen)
  {
  }

  // ---- The expiry log ----

  /** The usability that one turn samples; a failed read or load makes no expiry check. */
  function Sample(cfg: Config, c: Core, turn: Turn): seq<bool> {
    if turn.read.ReadOk? && (Skips(cfg, c, turn.read.bytes) || Load(cfg, turn.read.bytes).Ok?)
    then [GenUsable(cfg, Tick(cfg, c, turn.read, turn.now).gen, turn.now)]
    else []
  }

  /** The samples of a history, in order. */
  function Samples(cfg: Config, c: Core, turns: seq<Turn>): seq<bool> {
    if turns == [] then []
    else
      var n := |turns| - 1;
      Samples(cfg, c, turns[..n]) + Sample(cfg, TickRun(cfg, c, turns[..n]), turns[n])
  }

  /** The last sample; the source counts as usable before the first. */
  function LastSample(samples: seq<bool>): bool { if samples == [] then true else samples[|samples| - 1] }

  /** The line that reports a change from one sample to the next, if there is one. */
  function Edge(previous: bool, x: bool): seq<Line> {
    if x == previous then [] else if x then [InfoLine] else [ErrorLine]
  }

  /** An error line per loss of usability and an info line per regain, in order. */
  function Edges(samples: seq<bool>): seq<Line> {
    if samples == [] then []
    else
      var n := |samples| - 1;
      Edges(samples[..n]) + Edge(LastSample(samples[..n]), samples[n])
  }

  /** The log of `c` holds exactly the edges of the samples so far. */
  predicate LogAgrees(samples: seq<bool>, c: Core) {
    c.log == Edges(samples) && c.expiredLogged == !LastSample(samples)
  }

  lemma LogStep(cfg: Config, samples: seq<bool>, c: Core, now: Time)
    requires LogAgrees(samples, c)
    ensures LogAgrees(samples + [GenUsable(cfg, c.gen, now)], CheckedExpiry(cfg, c, now))
  {
    assert (samples + [GenUsable(cfg, c.gen, now)])[..|samples|] == samples;
  }

  lemma LogTurn(cfg: Config, samples: seq<bool>, c: Core, turn: Turn)
    requires LogAgrees(samples, c)
    ensures LogAgrees(samples + Sample(cfg, c, turn), Tick(cfg, c, turn.read, turn.now))
  {
    if Sample(cfg, c, turn) == [] {
      assert samples + [] == samples;
    } else if Skips(cfg, c, turn.read.bytes) {
      LogStep(cfg, samples, c, turn.now);
    } else {
      LogStep(cfg, samples, Installed(cfg, c, turn.read.bytes, Load(cfg, turn.read.bytes).value), turn.now);
    }
  }

  /** Lines alternate, starting with an error. */
  predicate Alternates(log: seq<Line>) {
    forall i :: 0 <= i < |log| ==> log[i] == if i % 2 == 0 then ErrorLine else InfoLine
  }

  lemma {:induction false} EdgesAlternate(samples: seq<bool>)
    ensures Alternates(Edges(samples))
    ensures LastSample(samples) <==> |Edges(samples)| % 2 == 0
  {
    if samples != [] { EdgesAlternate(samples[..|samples| - 1]); }
  }

  lemma {:induction false} LogIsEdges(cfg: Config, first: Bytes, start: Time, turns: seq<Turn>)
    requires Started(cfg, ReadOk(first), start).Ok?
    ensures
      var c := Started(cfg, ReadOk(first), start).value;
      LogAgrees([GenUsable(cfg, c.gen, start)] + Samples(cfg, c, turns), TickRun(cfg, c, turns))
  {
    var c := Started(cfg, ReadOk(first), start).value;
    var usable := GenUsable(cfg, c.gen, start);
    if turns == [] {
      LogStep(cfg, [], Installed(cfg, EMPTY_CORE, first, Load(cfg, first).value), start);
      assert [usable] + [] == [] + [usable];
    } else {
      var n := |turns| - 1;
      LogIsEdges(cfg, first, start, turns[..n]);
      var rest, before := Samples(cfg, c, turns[..n]), TickRun(cfg, c, turns[..n]);
      LogTurn(cfg, [usable] + rest, before, turns[n]);
      assert ([usable] + rest) + Sample(cfg, before, turns[n]) == [usable] + (rest + Sample(cfg, before, turns[n]));
    }
  }

  /**
   From construction on, the log holds exactly the edges of the sampled usability (taking the time before
   construction as usable), so its lines strictly alternate, beginning with an error.
   */
  lemma LogRecordsTransitions(cfg: Config, first: Bytes, start: Time, turns: seq<Turn>)
    requires Started(cfg, ReadOk(first), start).Ok?
    ensures
      var c := Started(cfg, ReadOk(first), start).value;
      var samples := [GenUsable(cfg, c.gen, start)] + Samples(cfg, c, turns);
      var end := TickRun(cfg, c, turns);
      && end.log == Edges(samples)
      && Alternates(end.log)
      && (end.expiredLogged <==> |end.log| % 2 == 1)
  {
    var c := Started(cfg, ReadOk(first), start).value;
    LogIsEdges(cfg, first, start, turns);
    EdgesAlternate([GenUsable(cfg, c.gen, start)] + Samples(cfg, c, turns));
  }
}
