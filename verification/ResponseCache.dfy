/** The responder's bounded in-memory cache, used by one goroutine at a time. */
module ResponseCache {
  import opened Types
  import opened Signer

  datatype Config = Config(ttl: Duration, maxEntries: int, enabled: bool, hasGauge: bool)

  /** An expiry: the signed deadline, which is a wall time only, or a reading that kept its monotonic part. */
  datatype Expiry = ByWall(deadline: Time) | ByTimer(at: Reading)

  /** `now.Before(expiresAt)`. */
  predicate Live(now: Reading, e: Expiry) {
    match e
    case ByWall(deadline) => now.wall < deadline
    case ByTimer(at) => now.mono < at.mono
  }

  /** The wall time that an expiry names. */
  function WallOf(e: Expiry): Time { if e.ByWall? then e.deadline else e.at.wall }

  datatype Entry = Entry(data: Signed, expiresAt: Expiry)

  type Entries = map<string, Entry>

  /** The earlier of the cache TTL and the signed deadline; the zero time means no signed deadline. */
  function ExpiryOf(cfg: Config, insertedAt: Reading, signedNextUpdate: Time): Expiry {
    if signedNextUpdate != ZERO_TIME && signedNextUpdate < insertedAt.wall + cfg.ttl
    then ByWall(signedNextUpdate)
    else ByTimer(Plus(insertedAt, cfg.ttl))
  }

  /** Whether `setAt` stores anything at all. */
  predicate Storable(cfg: Config, insertedAt: Reading, signedNextUpdate: Time) {
    cfg.enabled && cfg.maxEntries > 0 && Live(insertedAt, ExpiryOf(cfg, insertedAt, signedNextUpdate))
  }

  /** The specification of a lookup: answer if unexpired, purge if expired. */
  function AtomicGet(cfg: Config, entries: Entries, key: string, now: Reading): (Option<Signed>, Entries) {
    if !cfg.enabled || key !in entries then (None, entries)
    else if Live(now, entries[key].expiresAt) then (Some(entries[key].data), entries)
    else (None, entries - {key})
  }

  /** Entries after making room: one arbitrary key is dropped, and only when the cache is full. */
  ghost predicate MadeRoom(cfg: Config, before: Entries, after: Entries) {
    if |before| >= cfg.maxEntries
    then exists victim :: victim in before && after == before - {victim}
    else after == before
  }

  /** The specification of an insertion. */
  ghost predicate AtomicSet(
    cfg: Config, before: Entries, key: string, data: Signed, insertedAt: Reading, signedNextUpdate: Time,
    after: Entries)
  {
    if Storable(cfg, insertedAt, signedNextUpdate)
    then exists room :: MadeRoom(cfg, before, room)
                        && after == room[key := Entry(data, ExpiryOf(cfg, insertedAt, signedNextUpdate))]
    else after == before
  }

  /** Never more than `maxEntries` entries, and none at all when the cache is off. */
  predicate WithinBound(cfg: Config, entries: Entries) {
    |entries| <= if cfg.enabled && cfg.maxEntries > 0 then cfg.maxEntries else 0
  }

  predicate GaugeAgrees(cfg: Config, gauge: int, entries: Entries) {
    cfg.hasGauge ==> gauge == |entries|
  }

  // ---- What lookups and insertions mean ----

  /** An insertion is worth storing: the cache is on and may hold entries, the TTL is positive, the deadline ahead. */
  predicate WorthStoring(cfg: Config, insertedAt: Reading, signedNextUpdate: Time) {
    && cfg.enabled && cfg.maxEntries > 0 && cfg.ttl > 0
    && (signedNextUpdate == ZERO_TIME || insertedAt.wall < signedNextUpdate)
  }

  /** How long it is answered: to the deadline by the wall clock if that comes first, else for the TTL by the timer. */
  predicate InLife(cfg: Config, insertedAt: Reading, signedNextUpdate: Time, at: Reading) {
    if signedNextUpdate != ZERO_TIME && signedNextUpdate < insertedAt.wall + cfg.ttl
    then at.wall < signedNextUpdate
    else at.mono < insertedAt.mono + cfg.ttl
  }

  /** An insertion is stored exactly if it is worth it, and is then answered exactly during its life. */
  lemma LifeIsExact(cfg: Config, insertedAt: Reading, signedNextUpdate: Time)
    ensures Storable(cfg, insertedAt, signedNextUpdate) <==> WorthStoring(cfg, insertedAt, signedNextUpdate)
    ensures forall at: Reading ::
      Live(at, ExpiryOf(cfg, insertedAt, signedNextUpdate)) <==> InLife(cfg, insertedAt, signedNextUpdate, at)
  {
  }

  /** A lookup answers exactly from an unexpired entry, leaves none expired at its reading, and touches no other. */
  lemma GetMeaning(cfg: Config, entries: Entries, key: string, now: Reading)
    ensures
      var (data, after) := AtomicGet(cfg, entries, key, now);
      && (data.Some? <==> cfg.enabled && key in entries && Live(now, entries[key].expiresAt))
      && (data.Some? ==> data.value == entries[key].data && after == entries)
      && (cfg.enabled && key in after ==> Live(now, after[key].expiresAt) && data.Some?)
      && (forall k :: k in after ==> k in entries && after[k] == entries[k])
      && (forall k :: k in entries && (k != key || !cfg.enabled) ==> k in after)
  {
  }

  /** A lookup after an insertion finds the inserted bytes exactly during their life, if they were worth storing. */
  lemma SetThenGet(
      cfg: Config, before: Entries, key: string, data: Signed, insertedAt: Reading, signedNextUpdate: Time,
      after: Entries, at: Reading)
    requires AtomicSet(cfg, before, key, data, insertedAt, signedNextUpdate, after)
    ensures WorthStoring(cfg, insertedAt, signedNextUpdate) ==>
      AtomicGet(cfg, after, key, at).0
      == if InLife(cfg, insertedAt, signedNextUpdate, at) then Some(data) else None
    ensures !WorthStoring(cfg, insertedAt, signedNextUpdate) ==> after == before
  {
    LifeIsExact(cfg, insertedAt, signedNextUpdate);
  }

  /** A full cache may give up any of its entries, even to replace the one under the same key. */
  lemma AnyVictim(
      cfg: Config, before: Entries, key: string, data: Signed, insertedAt: Reading, signedNextUpdate: Time,
      victim: string)
    requires WorthStoring(cfg, insertedAt, signedNextUpdate) && |before| >= cfg.maxEntries && victim in before
    ensures exists after :: AtomicSet(cfg, before, key, data, insertedAt, signedNextUpdate, after)
                            && after.Keys == before.Keys - {victim} + {key}
  {
    var after := (before - {victim})[key := Entry(data, ExpiryOf(cfg, insertedAt, signedNextUpdate))];
    assert MadeRoom(cfg, before, before - {victim});
    assert AtomicSet(cfg, before, key, data, insertedAt, signedNextUpdate, after);
  }

  class Cache {
    const cfg: Config
    var entries: Entries
    var gauge: int

    ghost predicate Valid()
      reads this
    {
      WithinBound(cfg, entries) && GaugeAgrees(cfg, gauge, entries)
    }

    constructor (cfg: Config)
      ensures Valid() && this.cfg == cfg && entries == map[]
    {
      this.cfg := cfg;
      entries := map[];
      gauge := 0;
    }

    method GetAt(key: string, now: Reading) returns (data: Option<Signed>)
      requires Valid()
      modifies this
      ensures Valid()
      ensures (data, entries) == AtomicGet(cfg, old(entries), key, now)
      ensures data == if cfg.enabled && key in old(entries) && Live(now, old(entries)[key].expiresAt)
                      then Some(old(entries)[key].data) else None
      ensures cfg.enabled && key in entries ==> Live(now, entries[key].expiresAt)
    {
      if !cfg.enabled {
        return None;
      }
      if key !in entries {
        return None;
      }
      var e := entries[key];
      if !Live(now, e.expiresAt) {
        if key !in entries {
          return None;
        }
        e := entries[key];
        if Live(now, e.expiresAt) {
          return Some(e.data);
        }
        entries := entries - {key};
        if cfg.hasGauge {
          gauge := |entries|;
        }
        return None;
      }
      return Some(e.data);
    }

    method SetAt(key: string, data: Signed, insertedAt: Reading, signedNextUpdate: Time)
      requires Valid()
      modifies this
      ensures Valid()
      ensures AtomicSet(cfg, old(entries), key, data, insertedAt, signedNextUpdate, entries)
      ensures !WorthStoring(cfg, insertedAt, signedNextUpdate) ==> entries == old(entries)
      ensures WorthStoring(cfg, insertedAt, signedNextUpdate) ==>
        && key in entries && entries[key].data == data
        && forall at: Reading ::
             Live(at, entries[key].expiresAt) <==> InLife(cfg, insertedAt, signedNextUpdate, at)
    {
      LifeIsExact(cfg, insertedAt, signedNextUpdate);
      if !cfg.enabled || cfg.maxEntries <= 0 {
        return;
      }
      var expiresAt := ByTimer(Plus(insertedAt, cfg.ttl));
      if signedNextUpdate != ZERO_TIME && signedNextUpdate < WallOf(expiresAt) {
        expiresAt := ByWall(signedNextUpdate);
      }
      if !Live(insertedAt, expiresAt) {
        return;
      }
      if |entries| >= cfg.maxEntries {
        var k :| k in entries;
        entries := entries - {k};
      }
      ghost var room := entries;
      assert MadeRoom(cfg, old(entries), room);
      RoomIsEnough(cfg, old(entries), room, key, Entry(data, expiresAt));
      InsertedIntoRoom(cfg, old(entries), room, key, data, insertedAt, signedNextUpdate);
      entries := entries[key := Entry(data, expiresAt)];
      if cfg.hasGauge {
        gauge := |entries|;
      }
    }
  }

  lemma RoomIsEnough(cfg: Config, before: Entries, room: Entries, key: string, e: Entry)
    requires cfg.enabled && cfg.maxEntries > 0
    requires WithinBound(cfg, before) && MadeRoom(cfg, before, room)
    ensures |room| < cfg.maxEntries && WithinBound(cfg, room[key := e])
  {
    assert room[key := e].Keys == room.Keys + {key};
    if |before| >= cfg.maxEntries {
      var victim :| victim in before && room == before - {victim};
      assert room.Keys == before.Keys - {victim};
    }
  }

  lemma InsertedIntoRoom(
      cfg: Config, before: Entries, room: Entries, key: string, data: Signed, insertedAt: Reading,
      signedNextUpdate: Time)
    requires Storable(cfg, insertedAt, signedNextUpdate) && MadeRoom(cfg, before, room)
    ensures AtomicSet(cfg, before, key, data, insertedAt, signedNextUpdate,
                      room[key := Entry(data, ExpiryOf(cfg, insertedAt, signedNextUpdate))])
  {
  }

  /** An insertion changes its own key and loses at most one other. */
  lemma SetLosesAtMostOne(
      cfg: Config, before: Entries, key: string, data: Signed, insertedAt: Reading, signedNextUpdate: Time,
      after: Entries)
    requires AtomicSet(cfg, before, key, data, insertedAt, signedNextUpdate, after)
    ensures |before.Keys - after.Keys| <= 1
    ensures after.Keys <= before.Keys + {key}
    ensures forall k :: k in after && k != key ==> k in before && after[k] == before[k]
    ensures |before| < cfg.maxEntries ==> before.Keys <= after.Keys
  {
    if Storable(cfg, insertedAt, signedNextUpdate) {
      var e := Entry(data, ExpiryOf(cfg, insertedAt, signedNextUpdate));
      var room :| MadeRoom(cfg, before, room) && after == room[key := e];
      if |before| >= cfg.maxEntries {
        var victim :| victim in before && room == before - {victim};
        assert before.Keys - after.Keys <= {victim};
        SubsetSize(before.Keys - after.Keys, {victim});
      } else {
        assert before.Keys - after.Keys == {};
      }
    } else {
      assert before.Keys - after.Keys == {};
    }
  }

  lemma {:induction false} SubsetSize<T>(a: set<T>, b: set<T>)
    requires a <= b
    ensures |a| <= |b|
    decreases a
  {
    if a != {} {
      var x :| x in a;
      SubsetSize(a - {x}, b - {x});
    }
  }

  /** What insertion promises about the entry it writes: it is live, and its expiry names neither bound's future. */
  lemma StoredEntryWindow(cfg: Config, insertedAt: Reading, signedNextUpdate: Time)
    requires Storable(cfg, insertedAt, signedNextUpdate)
    ensures
      var e := ExpiryOf(cfg, insertedAt, signedNextUpdate);
      && insertedAt.wall < WallOf(e) <= insertedAt.wall + cfg.ttl
      && (signedNextUpdate != ZERO_TIME ==> WallOf(e) <= signedNextUpdate)
    ensures cfg.ttl > 0
  {
  }

  // ---- Hits and the signed deadline ----

  /**
   What a hit at reading `at` says about its age and about the signed deadline. The age is bounded by the TTL
   on the clock that the expiry uses, and the deadline is kept unless the wall clock has since gained more
   than the time that was left between the TTL and the deadline.
   */
  lemma HitWindow(cfg: Config, insertedAt: Reading, signedNextUpdate: Time, at: Reading)
    requires Live(at, ExpiryOf(cfg, insertedAt, signedNextUpdate))
    ensures
      var e := ExpiryOf(cfg, insertedAt, signedNextUpdate);
      && (e.ByWall? ==> at.wall < signedNextUpdate < insertedAt.wall + cfg.ttl)
      && (e.ByTimer? ==> at.mono < insertedAt.mono + cfg.ttl)
      && (signedNextUpdate != ZERO_TIME && insertedAt.wall + cfg.ttl + Gain(insertedAt, at) <= signedNextUpdate ==>
            at.wall < signedNextUpdate)
      && (signedNextUpdate != ZERO_TIME && Gain(insertedAt, at) <= 0 ==> at.wall < signedNextUpdate)
  {
  }

  /**
   An entry with a signed deadline is never served past it, whatever is done to the wall clock, exactly if
   the deadline is the earlier bound: only then is it what the lookup compares with.
   */
  lemma DeadlineKeptIff(cfg: Config, insertedAt: Reading, signedNextUpdate: Time)
    requires Storable(cfg, insertedAt, signedNextUpdate) && signedNextUpdate != ZERO_TIME
    ensures (forall at :: Live(at, ExpiryOf(cfg, insertedAt, signedNextUpdate)) ==> at.wall < signedNextUpdate)
      <==> signedNextUpdate < insertedAt.wall + cfg.ttl
  {
    var stepped := Reading(signedNextUpdate, insertedAt.mono);
    assert Live(stepped, ExpiryOf(cfg, insertedAt, signedNextUpdate)) || signedNextUpdate < insertedAt.wall + cfg.ttl;
  }

  /**
   For a given gain of the wall clock since the insertion, no lookup is answered past the signed deadline
   exactly if the deadline is the earlier bound, or the gain fits between the TTL and the deadline.
   */
  lemma DeadlineKeptAtGainIff(cfg: Config, insertedAt: Reading, signedNextUpdate: Time, gain: Duration)
    requires Storable(cfg, insertedAt, signedNextUpdate) && signedNextUpdate != ZERO_TIME
    ensures (forall at: Reading | insertedAt.mono <= at.mono && Gain(insertedAt, at) == gain
               :: Live(at, ExpiryOf(cfg, insertedAt, signedNextUpdate)) ==> at.wall < signedNextUpdate)
      <==> signedNextUpdate < insertedAt.wall + cfg.ttl || insertedAt.wall + cfg.ttl + gain <= signedNextUpdate
  {
    var last := Reading(insertedAt.wall + cfg.ttl - 1 + gain, insertedAt.mono + cfg.ttl - 1);
    assert Gain(insertedAt, last) == gain;
    assert Live(last, ExpiryOf(cfg, insertedAt, signedNextUpdate)) || signedNextUpdate < insertedAt.wall + cfg.ttl;
  }
}
