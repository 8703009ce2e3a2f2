/** The CRL file source, used by one goroutine at a time: lookups, reloading and the expiry log. */
module CrlSource {
  import opened Types
  import opened SerialText

  type Bytes = seq<int>
  type Digest = int
  type Name = string

  datatype Extension = Extension(id: seq<int>, value: seq<int>)

  datatype CrlEntry = CrlEntry(serial: int, revokedAt: Time, extensions: seq<Extension>)

  /** A parsed revocation list. */
  datatype Crl = Crl(issuer: Name, entries: seq<CrlEntry>, thisUpdate: Time, nextUpdate: Time)

  /** Parsing, signature checking and SHA-256 are arbitrary functions of the configuration. */
  datatype Config = Config(
    parse: Bytes -> Option<Crl>,
    signatureOk: Crl -> bool,
    digest: Bytes -> Digest,
    subject: Name,
    grace: Duration,
    isUrl: bool)

  /** The three fields that one CRL generation occupies. */
  datatype Generation = Generation(revoked: map<string, CrlEntry>, thisUpdate: Time, nextUpdate: Time)

  const NO_GENERATION := Generation(map[], ZERO_TIME, ZERO_TIME)

  const NO_DIGEST: Digest := 0

  const CLOCK_SKEW_ALLOWANCE: Duration := 5 * MINUTE

  const CRL_REASON: seq<int> := [2, 5, 29, 21]

  // ---- The validity window ----

  predicate NotYetValidAt(thisUpdate: Time, now: Time) {
    thisUpdate != ZERO_TIME && now < thisUpdate - CLOCK_SKEW_ALLOWANCE
  }

  predicate ExpiredAt(nextUpdate: Time, grace: Duration, now: Time) {
    nextUpdate != ZERO_TIME && now > nextUpdate + grace
  }

  predicate UsableAt(thisUpdate: Time, nextUpdate: Time, grace: Duration, now: Time) {
    !ExpiredAt(nextUpdate, grace, now) && !NotYetValidAt(thisUpdate, now)
  }

  predicate GenUsable(cfg: Config, g: Generation, now: Time) {
    UsableAt(g.thisUpdate, g.nextUpdate, cfg.grace, now)
  }

  /** 0 before the window, 1 inside it, 2 after it. */
  function Phase(cfg: Config, g: Generation, now: Time): nat {
    if ExpiredAt(g.nextUpdate, cfg.grace, now) then 2
    else if NotYetValidAt(g.thisUpdate, now) then 0
    else 1
  }

  /** From five minutes before ThisUpdate through NextUpdate plus the grace, where the zero time means no bound. */
  predicate InWindow(grace: Duration, thisUpdate: Time, nextUpdate: Time, now: Time) {
    && (thisUpdate == 0 || thisUpdate - 300_000_000_000 <= now)
    && (nextUpdate == 0 || now <= nextUpdate + grace)
  }

  /**
   A generation only ever moves forward through its phases and is usable in the middle one: from five minutes
   before its ThisUpdate through its NextUpdate plus the grace, both ends included.
   */
  lemma PhaseOnlyAdvances(cfg: Config, g: Generation, now: Time, later: Time)
    requires now <= later
    ensures Phase(cfg, g, now) <= Phase(cfg, g, later)
    ensures GenUsable(cfg, g, now) <==> Phase(cfg, g, now) == 1
    ensures GenUsable(cfg, g, now) <==> InWindow(cfg.grace, g.thisUpdate, g.nextUpdate, now)
  {
  }

  // ---- The index of revoked serials ----

  function IndexOf(entries: seq<CrlEntry>): map<string, CrlEntry> {
    if entries == [] then map[]
    else
      var last := entries[|entries| - 1];
      IndexOf(entries[..|entries| - 1])[Decimal(last.serial) := last]
  }

  /** Position `i` is the last one whose entry names `serial`. */
  ghost predicate LastFor(entries: seq<CrlEntry>, serial: int, i: int) {
    && 0 <= i < |entries| && entries[i].serial == serial
    && forall j :: i < j < |entries| ==> entries[j].serial != serial
  }

  /** The decimal index finds exactly the numeric serials on the list, at their last occurrence. */
  lemma {:induction false} IndexAgreesWithList(entries: seq<CrlEntry>, serial: int)
    ensures Decimal(serial) in IndexOf(entries) <==> exists i :: 0 <= i < |entries| && entries[i].serial == serial
    ensures Decimal(serial) in IndexOf(entries) ==>
      exists i :: LastFor(entries, serial, i) && IndexOf(entries)[Decimal(serial)] == entries[i]
  {
    if entries != [] {
      var n := |entries| - 1;
      var init := entries[..n];
      IndexAgreesWithList(init, serial);
      DecimalInjective(serial, entries[n].serial);
      if entries[n].serial == serial {
        assert LastFor(entries, serial, n);
      } else if Decimal(serial) in IndexOf(init) {
        var i :| LastFor(init, serial, i) && IndexOf(init)[Decimal(serial)] == init[i];
        assert LastFor(entries, serial, i);
      } else {
        assert forall i :: 0 <= i < n ==> entries[i] == init[i];
      }
    }
  }

  method BuildIndex(entries: seq<CrlEntry>) returns (revoked: map<string, CrlEntry>)
    ensures revoked == IndexOf(entries)
  {
    revoked := map[];
    for i := 0 to |entries|
      invariant revoked == IndexOf(entries[..i])
    {
      revoked := revoked[Decimal(entries[i].serial) := entries[i]];
      assert entries[..i + 1][..i] == entries[..i];
    }
    assert entries[..|entries|] == entries;
  }

  /** The reason code: the last byte of the first CRL-reason extension, or 0. */
  function ReasonCode(extensions: seq<Extension>): int {
    if extensions == [] then 0
    else if extensions[0].id == CRL_REASON then
      var v := extensions[0].value;
      if v == [] then 0 else v[|v| - 1]
    else ReasonCode(extensions[1..])
  }

  method ReadReason(extensions: seq<Extension>) returns (reason: int)
    ensures reason == ReasonCode(extensions)
    ensures (forall i :: 0 <= i < |extensions| ==> extensions[i].id != [2, 5, 29, 21]) ==> reason == 0
    ensures forall i :: 0 <= i < |extensions| && extensions[i].id == [2, 5, 29, 21]
                        && (forall j :: 0 <= j < i ==> extensions[j].id != [2, 5, 29, 21])
              ==> reason == (var v := extensions[i].value; if v == [] then 0 else v[|v| - 1])
  {
    reason := 0;
    for i := 0 to |extensions|
      invariant reason == 0
      invariant forall j :: 0 <= j < i ==> extensions[j].id != CRL_REASON
      invariant ReasonCode(extensions) == ReasonCode(extensions[i..])
    {
      assert extensions[i..][1..] == extensions[i + 1..];
      if extensions[i].id == CRL_REASON {
        if extensions[i].value != [] {
          reason := extensions[i].value[|extensions[i].value| - 1];
        }
        break;
      }
    }
  }

  // ---- Lookups ----

  function StatusIn(g: Generation, serial: int): CertStatus {
    var key := Decimal(serial);
    if key in g.revoked then
      CertStatus(Revoked,
                 Some(RevocationInfo(g.revoked[key].revokedAt, ReasonCode(g.revoked[key].extensions))),
                 g.nextUpdate)
    else CertStatus(Good, None, g.nextUpdate)
  }

  /** A lookup in one fixed generation at one clock reading. */
  function LookupAt(cfg: Config, g: Generation, serial: int, issuer: Option<Name>, now: Time): Result<CertStatus> {
    if !GenUsable(cfg, g, now) then Err(SourceUnhealthy)
    else if issuer.None? then Err(IssuerMissing)
    else if issuer.value != cfg.subject then Err(IssuerMismatch)
    else Ok(StatusIn(g, serial))
  }

  /** A lookup is answered exactly inside the window and for the configured issuer, and says why it is not. */
  lemma AnsweredIff(cfg: Config, g: Generation, serial: int, issuer: Option<Name>, now: Time)
    ensures
      var r := LookupAt(cfg, g, serial, issuer, now);
      && (r.Ok? <==> InWindow(cfg.grace, g.thisUpdate, g.nextUpdate, now) && issuer == Some(cfg.subject))
      && (r.Ok? ==> r.value == StatusIn(g, serial))
      && (r.Err? ==> r.fault == if !InWindow(cfg.grace, g.thisUpdate, g.nextUpdate, now) then SourceUnhealthy
                                else if issuer.None? then IssuerMissing else IssuerMismatch)
  {
  }

  // ---- Loading ----

  /** Parse, then check the issuer name and the signature. */
  function Load(cfg: Config, b: Bytes): Result<Crl> {
    match cfg.parse(b)
    case None => Err(InvalidCrl)
    case Some(crl) =>
      if crl.issuer != cfg.subject then Err(CrlIssuerMismatch)
      else if !cfg.signatureOk(crl) then Err(CrlSignature)
      else Ok(crl)
  }

  /** Exactly the CRLs that parse, name the configured issuer and carry its signature are accepted. */
  lemma LoadsIff(cfg: Config, b: Bytes, crl: Crl)
    ensures Load(cfg, b) == Ok(crl)
      <==> cfg.parse(b) == Some(crl) && crl.issuer == cfg.subject && cfg.signatureOk(crl)
    ensures Load(cfg, b).Err? ==>
      Load(cfg, b).fault == if cfg.parse(b).None? then InvalidCrl
                            else if cfg.parse(b).value.issuer != cfg.subject then CrlIssuerMismatch
                            else CrlSignature
  {
  }

  function GenOf(crl: Crl): Generation { Generation(IndexOf(crl.entries), crl.thisUpdate, crl.nextUpdate) }

  /** `g` is what some CRL that passed verification against the configured issuer installs. */
  ghost predicate Verified(cfg: Config, g: Generation, crl: Crl) {
    g == GenOf(crl) && crl.issuer == cfg.subject && cfg.signatureOk(crl)
    && exists b :: cfg.parse(b) == Some(crl)
  }

  /** What a usable lookup says, in terms of the list itself rather than its index. */
  lemma StatusMatchesList(g: Generation, crl: Crl, serial: int)
    requires g == GenOf(crl)
    ensures StatusIn(g, serial).sourceNextUpdate == crl.nextUpdate
    ensures StatusIn(g, serial).status.Good? <==> forall i :: 0 <= i < |crl.entries| ==> crl.entries[i].serial != serial
    ensures StatusIn(g, serial).status.Revoked? <==> exists i :: LastFor(crl.entries, serial, i)
    ensures forall i :: LastFor(crl.entries, serial, i) ==>
              StatusIn(g, serial).revocation
              == Some(RevocationInfo(crl.entries[i].revokedAt, ReasonCode(crl.entries[i].extensions)))
  {
    IndexAgreesWithList(crl.entries, serial);
  }

  // ---- The reload state ----

  /** A line written by `checkExpiry`. */
  datatype Line = ErrorLine | InfoLine

  /** The mutable fields that the reload goroutine owns. */
  datatype Core = Core(
    gen: Generation,
    loaded: bool,
    lastHash: Digest,
    expiredLogged: bool,
    log: seq<Line>)

  datatype ReadOutcome = ReadError | ReadOk(bytes: Bytes)

  function CheckedExpiry(cfg: Config, c: Core, now: Time): Core {
    if !GenUsable(cfg, c.gen, now) then
      c.(expiredLogged := true, log := if c.expiredLogged then c.log else c.log + [ErrorLine])
    else
      c.(expiredLogged := false, log := if c.expiredLogged then c.log + [InfoLine] else c.log)
  }

  function Installed(cfg: Config, c: Core, b: Bytes, crl: Crl): Core {
    c.(gen := GenOf(crl), loaded := true, lastHash := if cfg.isUrl then c.lastHash else cfg.digest(b))
  }

  /** Whether the reloader skips the parse of `b`. */
  predicate Skips(cfg: Config, c: Core, b: Bytes) {
    !cfg.isUrl && cfg.digest(b) == c.lastHash && c.loaded
  }

  /** One turn of the reload loop. */
  function Tick(cfg: Config, c: Core, read: ReadOutcome, now: Time): Core {
    match read
    case ReadError => c.(loaded := false)
    case ReadOk(b) =>
      if Skips(cfg, c, b) then CheckedExpiry(cfg, c, now)
      else
        match Load(cfg, b)
        case Err(_) => c.(loaded := false)
        case Ok(crl) => CheckedExpiry(cfg, Installed(cfg, c, b, crl), now)
  }

  const EMPTY_CORE := Core(NO_GENERATION, false, NO_DIGEST, false, [])

  /** What construction leaves behind, if it succeeds. */
  function Started(cfg: Config, read: ReadOutcome, now: Time): Result<Core> {
    match read
    case ReadError => Err(ReadFailed)
    case ReadOk(b) =>
      match Load(cfg, b)
      case Err(f) => Err(f)
      case Ok(crl) => Ok(CheckedExpiry(cfg, Installed(cfg, EMPTY_CORE, b, crl), now))
  }

  /** The reading gave the bytes of a CRL that is accepted. */
  predicate Acceptable(cfg: Config, read: ReadOutcome, crl: Crl) {
    read.ReadOk? && cfg.parse(read.bytes) == Some(crl) && crl.issuer == cfg.subject && cfg.signatureOk(crl)
  }

  /** A source just constructed from `crl`: in service with it, and one line logged if it is outside its window. */
  ghost predicate FreshlyStarted(cfg: Config, crl: Crl, now: Time, c: Core) {
    && c.gen == GenOf(crl) && c.loaded
    && (InWindow(cfg.grace, crl.thisUpdate, crl.nextUpdate, now) ==> c.log == [] && !c.expiredLogged)
    && (!InWindow(cfg.grace, crl.thisUpdate, crl.nextUpdate, now) ==> c.log == [ErrorLine] && c.expiredLogged)
  }

  /**
   Construction succeeds exactly for a readable and acceptable CRL, whatever the clock says: an expired or
   post-dated one is loaded and logged, so that the next publication can bring the source back.
   */
  lemma StartsIff(cfg: Config, read: ReadOutcome, now: Time)
    ensures Started(cfg, read, now).Ok? <==> exists crl :: Acceptable(cfg, read, crl)
    ensures forall crl :: Acceptable(cfg, read, crl) ==> FreshlyStarted(cfg, crl, now, Started(cfg, read, now).value)
    ensures Started(cfg, read, now).Err? ==>
      Started(cfg, read, now).fault == if read.ReadError? then ReadFailed else Load(cfg, read.bytes).fault
  {
    if read.ReadOk? && Load(cfg, read.bytes).Ok? {
      var crl := Load(cfg, read.bytes).value;
      LoadsIff(cfg, read.bytes, crl);
      assert Acceptable(cfg, read, crl);
      PhaseOnlyAdvances(cfg, GenOf(crl), now, now);
    }
  }

  class FileSource {
    const cfg: Config
    var revoked: map<string, CrlEntry>
    var thisUpdate: Time
    var nextUpdate: Time
    var loaded: bool
    var lastHash: Digest
    var expiredLogged: bool
    var log: seq<Line>

    ghost function Contents(): Core
      reads this
    {
      Core(Generation(revoked, thisUpdate, nextUpdate), loaded, lastHash, expiredLogged, log)
    }

    /** The struct literal, before anything is loaded. */
    constructor (cfg: Config)
      ensures this.cfg == cfg && Contents() == EMPTY_CORE
    {
      this.cfg := cfg;
      revoked, thisUpdate, nextUpdate := map[], ZERO_TIME, ZERO_TIME;
      loaded, lastHash, expiredLogged, log := false, NO_DIGEST, false, [];
    }

    method ParseCrlBytes(b: Bytes) returns (r: Result<()>)
      modifies this
      ensures r.Ok? <==> Load(cfg, b).Ok?
      ensures r.Err? ==> r.fault == Load(cfg, b).fault && Contents() == old(Contents())
      ensures r.Ok? ==> Contents() == old(Contents()).(gen := GenOf(Load(cfg, b).value), loaded := true)
    {
      var parsed := cfg.parse(b);
      if parsed.None? {
        return Err(InvalidCrl);
      }
      var crl := parsed.value;
      if crl.issuer != cfg.subject {
        return Err(CrlIssuerMismatch);
      }
      if !cfg.signatureOk(crl) {
        return Err(CrlSignature);
      }
      var index := BuildIndex(crl.entries);
      revoked := index;
      thisUpdate := crl.thisUpdate;
      nextUpdate := crl.nextUpdate;
      loaded := true;
      return Ok(());
    }

    /** `loadCRL`: from the URL without a digest, from disk with one. */
    method LoadCrl(read: ReadOutcome) returns (r: Result<()>)
      modifies this
      ensures read.ReadError? ==> r == Err(ReadFailed) && Contents() == old(Contents())
      ensures read.ReadOk? && Load(cfg, read.bytes).Err?
        ==> r == Err(Load(cfg, read.bytes).fault) && Contents() == old(Contents())
      ensures read.ReadOk? && Load(cfg, read.bytes).Ok?
        ==> r.Ok? && Contents() == Installed(cfg, old(Contents()), read.bytes, Load(cfg, read.bytes).value)
    {
      if read.ReadError? {
        return Err(ReadFailed);
      }
      r := ParseCrlBytes(read.bytes);
      if r.Ok? && !cfg.isUrl {
        lastHash := cfg.digest(read.bytes);
      }
    }

    method ReloadFromDiskIfChanged(read: ReadOutcome) returns (r: Result<()>)
      requires !cfg.isUrl
      modifies this
      ensures r.Ok? <==> read.ReadOk? && (Skips(cfg, old(Contents()), read.bytes) || Load(cfg, read.bytes).Ok?)
      ensures r.Err? ==> Contents() == old(Contents())
      ensures r.Ok? && Skips(cfg, old(Contents()), read.bytes) ==> Contents() == old(Contents())
      ensures r.Ok? && !Skips(cfg, old(Contents()), read.bytes)
        ==> Contents() == Installed(cfg, old(Contents()), read.bytes, Load(cfg, read.bytes).value)
    {
      if read.ReadError? {
        return Err(ReadFailed);
      }
      var sum := cfg.digest(read.bytes);
      var same := sum == lastHash;
      if same && loaded {
        return Ok(());
      }
      r := ParseCrlBytes(read.bytes);
      if r.Err? {
        return;
      }
      lastHash := sum;
    }

    method CheckExpiry(now: Time)
      modifies this
      ensures Contents() == CheckedExpiry(cfg, old(Contents()), now)
    {
      if !UsableAt(thisUpdate, nextUpdate, cfg.grace, now) {
        var already := expiredLogged;
        expiredLogged := true;
        if !already {
          log := log + [ErrorLine];
        }
        return;
      }
      var was := expiredLogged;
      expiredLogged := false;
      if was {
        log := log + [InfoLine];
      }
    }

    method MarkUnhealthy()
      modifies this
      ensures Contents() == old(Contents()).(loaded := false)
    {
      loaded := false;
    }

    /** The body of `reloadLoop` for one tick. */
    method ReloadTick(read: ReadOutcome, now: Time)
      modifies this
      ensures Contents() == Tick(cfg, old(Contents()), read, now)
    {
      var r: Result<()>;
      if cfg.isUrl {
        r := LoadCrl(read);
      } else {
        r := ReloadFromDiskIfChanged(read);
      }
      if r.Err? {
        MarkUnhealthy();
      } else {
        CheckExpiry(now);
      }
    }

    method GetStatus(cancelled: bool, serial: int, issuer: Option<Name>, now: Time) returns (r: Result<CertStatus>)
      ensures r ==
        if cancelled then Err(Cancelled)
        else if !loaded then Err(SourceUnhealthy)
        else LookupAt(cfg, Contents().gen, serial, issuer, now)
    {
      if cancelled {
        return Err(Cancelled);
      }
      if !loaded {
        return Err(SourceUnhealthy);
      }
      var key := Decimal(serial);
      var usable := UsableAt(thisUpdate, nextUpdate, cfg.grace, now);
      if !usable {
        return Err(SourceUnhealthy);
      }
      if issuer.None? {
        return Err(IssuerMissing);
      }
      if issuer.value != cfg.subject {
        return Err(IssuerMismatch);
      }
      if key in revoked {
        var reason := ReadReason(revoked[key].extensions);
        return Ok(CertStatus(Revoked, Some(RevocationInfo(revoked[key].revokedAt, reason)), nextUpdate));
      }
      return Ok(CertStatus(Good, None, nextUpdate));
    }

    /** Health and lookups agree: the source is healthy exactly when a well-formed lookup is answered. */
    method Healthy(now: Time) returns (h: bool)
      ensures h <==> loaded && LookupAt(cfg, Contents().gen, 0, Some(cfg.subject), now).Ok?
    {
      h := loaded && UsableAt(thisUpdate, nextUpdate, cfg.grace, now);
    }
  }

  method NewFileSource(cfg: Config, issuerGiven: bool, read: ReadOutcome, now: Time) returns (r: Result<FileSource>)
    ensures !issuerGiven ==> r == Err(IssuerMissing)
    ensures issuerGiven ==> (r.Ok? <==> Started(cfg, read, now).Ok?)
    ensures issuerGiven && r.Err? ==> r.fault == Started(cfg, read, now).fault
    ensures r.Ok? ==> fresh(r.value) && r.value.cfg == cfg && r.value.Contents() == Started(cfg, read, now).value
    ensures r.Ok? <==> issuerGiven && exists crl :: Acceptable(cfg, read, crl)
    ensures forall crl :: r.Ok? && Acceptable(cfg, read, crl) ==> FreshlyStarted(cfg, crl, now, r.value.Contents())
  {
    StartsIff(cfg, read, now);
    if !issuerGiven {
      return Err(IssuerMissing);
    }
    var s := new FileSource(cfg);
    var loaded := s.LoadCrl(read);
    if loaded.Err? {
      return Err(loaded.fault);
    }
    s.CheckExpiry(now);
    return Ok(s);
  }
}
