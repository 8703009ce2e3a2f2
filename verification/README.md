# A verified model of the OCSP responder's freshness and fail-closed machinery

An OCSP responder (RFC 6960) may answer `good` only on the strength of revocation data that is verified, current and
about the certificate in question. In this responder that rests on four pieces of concurrent, mutable state: a CRL that
a background goroutine replaces while lookups read it, a response cache whose lookups upgrade from a read lock to a
write lock, an HTTP source with a health flag and its own cache, and the time arithmetic that joins source validity,
signed validity and cache lifetime. This project models those pieces in Dafny and proves what they guarantee together,
in every interleaving, down to the granularity of single reads and writes under the source's own locks.

## How it is organised

| file | what it holds |
|---|---|
| `Types.dfy` | times, statuses, results |
| `SerialText.dfy`, `UpstreamUrl.dfy` | decimal and hexadecimal serials; the upstream URL |
| `GetDecoder.dfy`, `GetAcceptance.dfy` | the GET path segment and its four base64 alphabets; exactly which texts are accepted, and as what |
| `Signer.dfy` | response construction and its deadline |
| `ResponseCache.dfy`, `CacheProtocol.dfy` | the response cache as a class, and as an interleaved lock protocol that refines an atomic cache |
| `Responder.dfy`, `ResponderProtocol.dfy` | `Handle` as a method, and any number of concurrent requests over an arbitrary source |
| `CrlSource.dfy`, `CrlReload.dfy`, `FileProtocol.dfy` | the CRL source as a class, histories of reload ticks, and lookups racing with the reload goroutine |
| `HttpSource.dfy`, `HttpProtocol.dfy` | the HTTP source as a class, and its concurrent calls |
| `SourcedResponder.dfy` | the responder composed with a concrete source and a common clock |
| `FileResponder.dfy`, `HttpResponder.dfy` | the end-to-end results over each source |
| `WitnessRuns.dfy` | whole runs that serve a reply past its deadline: in the grace period, and after a step of the wall clock |

Sequential code is a class whose methods are specified by pure functions. Concurrent code is a step relation over the
same functions; a run is a sequence of states, and "traces to" always means an index into the run at which the stated
fact held. The responder is first proved against a source that is an arbitrary oracle (the Go interface), then composed
with each concrete source; each half of a composed run is shown to be a run of its own protocol.

Conventions. Times are unbounded integers in nanoseconds since Go's zero time, so 0 is `time.Time{}`. A clock reading has
a wall and a monotonic part, as `time.Now()` has: both caches' TTLs compare monotonic readings, while CRL times and signed
deadlines, which have only a wall part, compare wall times. The monotonic clock never runs backwards; the wall clock may
be stepped either way unless a result says otherwise. Durations wrap as int64 only in the retry loop, where it matters.
CRL parsing, signature checking and SHA-256 are arbitrary functions in the configuration; an OCSP response is the record
of the fields handed to the encoder; the upstream, cancellation and the clock are inputs. The base64 codec follows sections 4
and 5 of RFC 4648 with the documented behaviour of Go's encoding/base64 (line breaks skipped, trailing bits unchecked).

Behaviour worth knowing, all of it followed as the code has it:

- The GET limit is stated in encoded bytes, so it admits requests of up to 10242 decoded bytes, two more than POST
  (`GetDecoder.GetBoundIsExact`); `GetDecoder.GetExceedsPostIff` says exactly which texts exceed the POST limit.
- In the grace period the signed nextUpdate lies before thisUpdate; such answers are served
  (`WitnessRuns.GraceAnswersAreServed`) but never cached (`FileResponder.GraceAnswersAreNotCached`).
  `Signer.DeadlinePassedIff` and `Responder.DeadlinePassedResponses` say exactly when it happens.
- The HTTP source deletes an expired cache entry by key without looking again and can drop a fresh replacement
  (`HttpProtocol.DeleteCanDropFreshEntry`); `HttpProtocol.DeleteDropsFreshIff` says exactly when. The response cache
  cannot.
- A response cached with the TTL as its expiry is compared with the monotonic clock, so stepping the wall clock forward
  can make it outlive its signed deadline (`WitnessRuns.SteppedClockServesPastDeadline`);
  `ResponseCache.DeadlineKeptIff` and `ResponseCache.DeadlineKeptAtGainIff` say exactly when it cannot.
- A collision of the CRL digest would keep the old CRL in service; `CrlReload.CollisionKeepsOldCrl` says exactly when.
- Doubling the retry backoff overflows int64 for long enough retry budgets; `HttpSource.TotalWaitExactIffNoOverflow`
  says exactly when the total wait departs from its closed form.

## Model

| member | source | states |
|---|---|---|
| FileResponder.GoodRepliesAreJustified | internal/responder/responder.go:69-127 | In every interleaving of requests, cache locks, evictions, lookups, reload steps and clock moves, a `good` reply rests on the source call of one request (its own if fresh, that of the request that inserted it if cached), and the one issuer-verified CRL that was installed and usable at the clock of that call's snapshot omits the serial; the deadline does not exceed that CRL's. From the cache it is served, at the clock of the step that looked it up, strictly before its signed deadline if the wall clock is never stepped, and in general unless the wall clock gained more than lay between TTL and deadline |
| FileResponder.RevokedRepliesAreJustified | internal/source/file.go:224-244 | A `revoked` reply carries the time and reason of the last entry for the serial on the CRL of the snapshot behind it |
| FileResponder.GraceAnswersAreNotCached | internal/responder/responder.go:252-258 | With a wall clock that never runs backwards, every cached status is what the CRL said at the snapshot of the request that inserted it, taken strictly before that CRL's NextUpdate, in any run |
| FileResponder.LookupHasEvidence | internal/source/file.go:186-247 | In the composed system, every status that a lookup returns is what the one verified CRL says about the serial asked for that was installed and usable when this lookup, having found the source in service, under the read lock and with its request waiting, read the clock |
| FileResponder.SnapshotBehindReply | internal/responder/responder.go:97-127 | Every `good` or `revoked` reply is the signed form of what the CRL at the snapshot behind it says; with a wall clock that never runs backwards snapshot, return and thisUpdate follow in that order, and a cached one is served in time |
| FileResponder.SnapshotIsNewest | internal/source/file.go:438-446 | The CRL of a snapshot is never a superseded one: it is the last verifiable CRL read by then, or one just being installed, unless the digest collides on the bytes read |
| FileResponder.CachedStaleness | internal/responder/responder.go:248-258 | On the monotonic clock of the run, the data behind a cached reply is younger at the lookup than ttl + the time the inserting request took from snapshot to insertion, plus only what a wall clock set back has added to an entry that expires by the wall clock |
| WitnessRuns.GraceAnswersAreServed | internal/source/file.go:182-184 | For every CRL past its NextUpdate but within the grace, and every serial, some run replies with what it says under a deadline before thisUpdate, as encoded too from a second past NextUpdate on, and caches nothing |
| WitnessRuns.SteppedClockServesPastDeadline | internal/responder/responder.go:218-241 | For every usable CRL and serial whose reply has a deadline at or beyond the end of the TTL, stepping the wall clock to or past that deadline lets some run serve the cached reply there |
| SourcedResponder.AnswersTrace | internal/responder/responder.go:100-105 | Every source result that a request works from was returned by that request's own source call, for its own serial, at the recorded clock reading and while it waited; a source call in progress always has its request waiting |
| SourcedResponder.CallBehindReply | internal/responder/responder.go:82-127 | Every reply is the signed form of one finished source call for its serial: the request's own if fresh, else that of the request that inserted those bytes; a cached one was unexpired at the clock of the step in which this request began its lookup |
| SourcedResponder.CallBehindEntry | internal/responder/responder.go:119-124 | Every cached entry stems from the own source call of the request that inserted it, for the serial of its key, with the expiry computed from the clock of the inserting step; with a wall clock that never runs backwards the call returned before that expiry |
| SourcedResponder.CachedReplyInTime | internal/responder/responder.go:208-258 | Every cached reply is younger than the TTL and before its signed deadline at the clock of its lookup, up to the exact effect of steps of the wall clock since the insertion; without steps, always |
| HttpResponder.GoodRepliesAreJustified | internal/responder/responder.go:69-127 | A `good` reply over the HTTP source, fresh or through either cache, rests on the source call of one request (its own, or that of the request that inserted it), and that call obtained it from a 200 reply, with a status value in the good list once coerced to text, to a GET of the URL of that serial sent by itself or by the call that stamped the entry which it found unexpired at the clock of the step that tested it; no other serial shares that URL |
| HttpResponder.FetchBehind | internal/source/http.go:159-191 | Every status that a source call returns was fetched, while its request waited, by that call itself or by the call whose entry it found unexpired, less than cacheTTL after the step that stamped it |
| HttpResponder.TwoLevelStaleness | internal/source/http.go:159-191 | On the monotonic clock of the run, a reply served from the response cache and built on a source-cache hit is served less than cacheTTL + ttl + (insertion - hit) after the step that stamped the upstream answer, and one built on a fresh fetch less than ttl + (insertion - GET) after that GET, plus only what a wall clock set back has added to an entry that expires by the wall clock |
| FileProtocol.LookupSeesOneGeneration | internal/source/file.go:186-247 | A lookup racing with any reload steps that found the source in service returns exactly what a sequential lookup in one verified generation returns at the clock reading taken under the read lock; otherwise it returns an error |
| FileProtocol.UnlockedGenVerified | internal/source/file.go:438-442 | Whenever the write lock is free the three CRL fields hold one verified generation, never a mixture |
| FileProtocol.TickEnds | internal/source/file.go:249-273 | The many small steps of one reload tick, interleaved with anything, amount to the sequential tick |
| FileProtocol.ReloadIsSequential | internal/source/file.go:369-394 | At every moment of every interleaving the state at the last tick boundary is that of the sequential ticks over exactly the reads and clock readings of this run |
| FileProtocol.IdleStates | internal/source/file.go:288-306 | Between ticks of any interleaving the expiry log is exactly the edges of the usability sampled by this run's ticks, and without a digest collision among the bytes this run has read the source serves what a reloader that always re-parses serves after the same reads |
| FileProtocol.GoodTickRearms | internal/source/file.go:379-393 | In any interleaving the step that ends a tick which read a verifiable CRL leaves that CRL in service |
| FileProtocol.GenerationIsNewest | internal/source/file.go:438-446 | Whenever lookups may read, the installed generation is that of the last verifiable CRL among the completed reads of the run, or of the tick under way |
| CrlReload.SkippingRefinesReparsing | internal/source/file.go:369-394 | For every history of read errors, bad CRLs, rollbacks and good CRLs, skipping on an unchanged digest serves after each tick exactly what re-parsing every time serves, given no digest collision |
| CrlReload.GoodReadRearms | internal/source/file.go:379-393 | From every reachable state one tick that reads a verifiable CRL puts it into service, even when its bytes were loaded before a failure |
| CrlReload.CollisionKeepsOldCrl | internal/source/file.go:375-387 | One tick departs from re-parsing if and only if it skips bytes that would not load the same CRL |
| CrlReload.LogRecordsTransitions | internal/source/file.go:288-306 | The expiry log is exactly the edges of the sampled usability, so its lines strictly alternate starting with an error |
| CrlSource.PhaseOnlyAdvances | internal/source/file.go:163-184 | A generation only moves forward from not-yet-valid through usable to expired, and is usable exactly from five minutes before ThisUpdate through NextUpdate plus the grace, the zero time meaning no bound |
| CrlSource.IndexAgreesWithList | internal/source/file.go:425-432 | The decimal-string index contains exactly the numeric serials on the list, each with its last entry |
| CrlSource.StatusMatchesList | internal/source/file.go:224-246 | A usable lookup says revoked if and only if the list has an entry for the serial, with the last one's time and reason, good otherwise, and always reports the CRL's NextUpdate |
| CrlSource.BuildIndex | internal/source/file.go:425-432 | The index loop computes the specified index |
| CrlSource.ReadReason | internal/source/file.go:225-235 | The reason is the last byte of the first extension 2.5.29.21, or 0 if there is none or it is empty |
| CrlSource.FileSource.ParseCrlBytes | internal/source/file.go:411-456 | Installs the generation and arms the source only for a CRL that parses, names the issuer and is signed by it; otherwise changes nothing |
| CrlSource.FileSource.LoadCrl | internal/source/file.go:323-361 | Loads from a URL without a digest and from disk with one, or changes nothing |
| CrlSource.FileSource.ReloadFromDiskIfChanged | internal/source/file.go:369-394 | Skips the parse exactly when the digest is unchanged and the source is in service |
| CrlSource.FileSource.CheckExpiry | internal/source/file.go:288-306 | Logs each loss and each return of usability once |
| CrlSource.FileSource.MarkUnhealthy | internal/source/file.go:312-320 | Takes the source out of service and keeps the loaded CRL and digest |
| CrlSource.FileSource.ReloadTick | internal/source/file.go:249-273 | One turn of the reload loop computes the sequential tick |
| CrlSource.FileSource.GetStatus | internal/source/file.go:186-247 | Cancelled, out of service, outside the window, missing or foreign issuer: an error each; else the status in the loaded generation |
| CrlSource.FileSource.Healthy | internal/source/file.go:136 | The source is healthy exactly when a well-formed lookup at the same reading would be answered |
| CrlSource.NewFileSource | internal/source/file.go:100-127 | Construction succeeds if and only if an issuer is given and the CRL can be read, parses, names the issuer and carries its signature, whatever the clock says; the source then is in service with that CRL and has logged one error line exactly if it is outside its window |
| CrlSource.StartsIff | internal/source/file.go:116-126 | The state that construction leaves exists exactly for a readable, acceptable CRL, expired or not, and the reason for failing is the first that applies |
| CrlSource.LoadsIff | internal/source/file.go:411-424 | A CRL is accepted if and only if it parses, names the configured issuer and carries its signature; otherwise the first failure is reported |
| CrlSource.AnsweredIff | internal/source/file.go:186-222 | A lookup in a generation is answered if and only if the clock is in its window and the issuer is the configured one; otherwise the first failure is reported |
| CacheProtocol.RunRefinesAtomicCache | internal/responder/responder.go:208-273 | Every interleaving of the lock-upgrading lookup, the insertion and its eviction loop is step for step a run of a cache whose calls are atomic |
| CacheProtocol.RunKeepsBounds | internal/responder/responder.go:233-272 | In every reachable state the size is within the maximum, the gauge equals it whenever no writer holds the lock, and every entry has, in wall time, insertedAt < expiresAt <= insertedAt + ttl and not after its signed deadline |
| CacheProtocol.GetDropsOnlyExpired | internal/responder/responder.go:218-239 | A lookup drops only its own key, and only if the entry found under the write lock is expired at the lookup's reading: never a fresh replacement |
| CacheProtocol.SetReleaseLosesAtMostOne | internal/responder/responder.go:259-272 | In every run the entries visible to others change only when the write lock is released, and a set has then lost at most one other key, none while there was room, and changed no other entry |
| CacheProtocol.HitIsUnexpired | internal/responder/responder.go:218-241 | A hit returns bytes that were set for that key and is unexpired at the call's clock reading |
| CacheProtocol.StepRefines | internal/responder/responder.go:208-273 | Each lock-level step keeps the cache invariant and is an atomic step or invisible |
| ResponseCache.Cache.GetAt | internal/responder/responder.go:208-242 | Alone, a lookup answers exactly from an unexpired entry, leaves no entry for its key that is expired at its reading, and changes nothing else |
| ResponseCache.Cache.SetAt | internal/responder/responder.go:248-273 | Alone, an insertion is stored exactly if cache, TTL and deadline allow, and is then answered exactly up to the signed deadline if that comes first, else for the TTL; it evicts only when full, and bound and gauge are kept |
| ResponseCache.LifeIsExact | internal/responder/responder.go:249-258 | An insertion is stored if and only if the cache is on, may hold entries, the TTL is positive and the deadline absent or ahead; it is answered if and only if the wall clock is before the deadline when that precedes the end of the TTL, and the monotonic clock within the TTL otherwise |
| ResponseCache.SetThenGet | internal/responder/responder.go:208-273 | A lookup right after an insertion finds the inserted bytes exactly during that life |
| ResponseCache.GetMeaning | internal/responder/responder.go:208-242 | A lookup answers if and only if there is an unexpired entry, leaves none that is expired at its reading under its key, and no other entry changes |
| ResponseCache.AnyVictim | internal/responder/responder.go:260-265 | A full cache may give up any of its entries, even to replace one under the same key |
| ResponseCache.Cache.constructor | internal/responder/responder.go:56-62 | The cache starts empty and within its bounds |
| ResponseCache.SetLosesAtMostOne | internal/responder/responder.go:260-268 | An insertion loses at most one other key, changes no other entry, and loses none while there is room |
| ResponseCache.DeadlineKeptIff | internal/responder/responder.go:252-258 | A stored response is never served past its signed deadline, whatever is done to the wall clock, if and only if that deadline is before the end of the TTL |
| ResponseCache.DeadlineKeptAtGainIff | internal/responder/responder.go:218-258 | For each gain of the wall clock on the monotonic one since insertion, no lookup is answered past the signed deadline if and only if the deadline is before the end of the TTL or the gain fits between the two |
| ResponderProtocol.ReplyTraces | internal/responder/responder.go:82-127 | Over any source, every reply is the signed form of one source answer for the requested serial: the request's own if fresh, else the own answer of the request that inserted it in a step of the run, found unexpired at the clock of the step in which this request began its lookup |
| ResponderProtocol.CachedReplyWindow | internal/responder/responder.go:208-258 | At the clocks of its lookup and insertion steps, a cached reply is within the TTL on the clock its expiry uses, and before its signed deadline unless the wall clock has gained more than lay between TTL and deadline |
| ResponderProtocol.CachedEntriesTrace | internal/responder/responder.go:119-124 | Every entry ever cached stems from the own source answer of the request that inserted it, for the serial of its key, and its expiry, computed from the clock of that step, exceeds neither deadline |
| ResponderProtocol.StepKeepsInv | internal/responder/responder.go:69-127 | Each step of any request, of the cache or of the clock keeps the tracing invariant |
| ResponderProtocol.SignAnswers | internal/responder/responder.go:97-126 | In every state a request with its source answer goes on to reply unless signing fails or the status is unsupported, with unknown if the source failed, signed at the wall time of that step |
| ResponderProtocol.RejectedBeforeAnything | internal/responder/responder.go:70-81 | In every run a request rejected on arrival fails with that fault for good and never touches the cache or the source |
| Responder.ResponseIsFaithful | internal/responder/responder.go:97-122 | Every response says what the source said: good or revoked only if the source returned that status, revocation data only for revoked, and the deadline is the latest whole second within source and response validity |
| Responder.ResponseExists | internal/responder/responder.go:97-122 | A working key makes a response for every source result but an unsupported status; an error or a nil status gives unknown, without revocation data, for the whole response validity |
| Responder.DeadlinePassedResponses | internal/responder/responder.go:97-122 | A response's deadline lies before its thisUpdate, as encoded, if and only if the source's own deadline lay before the second of signing; and before encoding, for a validity of a second or more and whole-second source times, if and only if it lay before thisUpdate |
| Responder.OcspResponder.Handle | internal/responder/responder.go:69-127 | One request: rejected before touching cache or source, answered from an unexpired entry, or answered from the source, a failed source being answered with unknown, and cached as its specification says |
| Responder.HandledMeans | internal/responder/responder.go:85-126 | A live entry is the reply and nothing changes; otherwise a working key replies to every supported source result, and the reply is then cached exactly if its deadline is ahead and the TTL positive, and for exactly that life |
| Responder.HandledTwice | internal/responder/responder.go:85-126 | During the life of a cached reply the next request gets the same reply whatever the source says; after it, a fresh one |
| Signer.DeadlineIsExact | internal/signer/signer.go:120-144 | The signed and the returned nextUpdate coincide and are the latest whole second not after thisUpdate + validity and the source's nextUpdate |
| Signer.SignsUnless | internal/signer/signer.go:101-144 | A response is refused exactly for an unsupported status or a failing key, and otherwise carries the serial, the status, thisUpdate and, only for revoked, the revocation data given |
| Signer.SentinelOnlyInFirstSecond | internal/signer/signer.go:121-127 | Truncation produces the zero time exactly when the limit is within the first second, never for whole-second source times and a realistic clock |
| Signer.DeadlinePassedIff | internal/signer/signer.go:120-127 | The nextUpdate lies before the thisUpdate passed in if and only if no whole second fits between thisUpdate and one of its two limits, for every validity and source time; and before thisUpdate as encoded if and only if the source deadline lies before that second |
| HttpProtocol.AnswersAreSupported | internal/source/http.go:147-194 | Every status a call returns is the mapping of a reply to a GET for that very serial, sent by the call itself or by the call that stamped the entry it found; a cached one was unexpired at the clock of the step that tested it, in a call that read the source healthy |
| HttpProtocol.HealthIsLastOutcome | internal/source/http.go:123-142 | In every run health is the outcome of the last fetch that any call recorded, with no recording since, and is true as long as none has |
| HttpProtocol.HitWasStored | internal/source/http.go:160-164 | A hit was fetched and stored for the same serial, by the call that stamped it, less than cacheTTL of monotonic time before the step that tested it |
| HttpProtocol.FetchesAreBounded | internal/source/http.go:200-227 | In every run a call sends at most maxAttempts GETs, none if it answers from the cache, and is exhausted only after exactly that many |
| HttpProtocol.NoTtlNoCache | internal/source/http.go:188-191 | Without a positive TTL nothing is ever cached, in any run |
| HttpProtocol.DeleteCanDropFreshEntry | internal/source/http.go:160-166 | For every serial some run, its wall clock never stepped, deletes an entry that is unexpired at that moment |
| HttpProtocol.DeleteDropsFreshIff | internal/source/http.go:160-166 | In every run the entry a call is about to delete is unexpired if and only if another call replaced, since the load, the expired one it had loaded, with a store reading less than cacheTTL back |
| HttpProtocol.DeleteDropsOnlyExpired | internal/source/http.go:160-166 | With no store for that key since the load, a deletion drops only the expired entry that was loaded |
| HttpSource.Source.GetStatus | internal/source/http.go:147-194 | A cached answer is used only while healthy and unexpired; otherwise result, health and cache are those of the fetch, whatever the cache holds |
| HttpSource.FetchWithRetry | internal/source/http.go:196-228 | The loop returns the specified outcome, records (fetches - 1) retries once it has fetched, and waits the specified total with int64 doubling |
| HttpSource.FetchReturnsFirstSettled | internal/source/http.go:200-227 | That outcome is the first attempt that is cancelled or conclusive, with no GET after it, and exhaustion only when none of at most maxAttempts settles |
| HttpSource.CancellationStops | internal/source/http.go:201-211 | A context that ends before an attempt or during the wait before it stops the call there, with no further GET |
| HttpSource.ConclusiveReplyEnds | internal/source/http.go:218-226 | The first conclusive reply, after replies worth retrying only, is what the call returns |
| HttpSource.TotalWaitExactIffNoOverflow | internal/source/http.go:204-212 | n GETs wait base * (2^(n-1) - 1) in total if and only if the last wait fits in int64 |
| HttpSource.NoOverflowWithinAttempts | internal/source/http.go:108-119 | When base * 2^(maxAttempts-1) is below 2^63 no doubling of the backoff wraps in any call and the closed form holds for every call |
| HttpSource.MappingMeaning | internal/source/http.go:243-281 | `good` exactly for a 200 reply with a listed good value, `revoked` exactly for a listed revoked value that is not also good; which replies are retried and which are errors |
| HttpSource.MappingByValue | internal/source/http.go:243-281 | A listed good value gives good, else a listed revoked value gives revoked at the current time, else unknown, where a non-string counts as empty; 404 and a missing field give unknown, an undecodable 200 an error, any other code a retry |
| HttpSource.ConfigureIsUsable | internal/source/http.go:70-121 | Construction succeeds exactly with a base URL and, if named, a usable root certificate file; every setting given is kept, and an absent one is "/1.0/certificates/{serial}", "status", ["active", "valid"], ["revoked"], 3 attempts or 500 ms; serials get distinct URLs if and only if the template is absent or names the serial |
| HttpSource.DefaultMapping | internal/source/http.go:24-26 | A source constructed with the default mapping reads "active" and "valid" as good and "revoked" as revoked |
| HttpSource.UrlForShape | internal/source/http.go:170-171 | The URL fetched is the base without trailing slashes and the template with the upper-case hexadecimal serial in it |
| UpstreamUrl.UrlsCollideIffNoPlaceholder | internal/source/http.go:170-171 | Two serials share an upstream URL if and only if the template lacks the placeholder |
| UpstreamUrl.UrlShape | internal/source/http.go:170-171 | With one placeholder the URL is the base without trailing slashes, the template and the upper-case hexadecimal serial |
| UpstreamUrl.ReplacesLeftmost | internal/source/http.go:170 | Every occurrence of "{serial}", from the left and without overlap, is replaced, and all other text is kept |
| UpstreamUrl.TrimSlashes | internal/source/http.go:116 | Removes exactly the trailing slashes |
| SerialText.DecimalInjective | internal/responder/responder.go:82-83 | Decimal keys identify serial numbers, of either sign |
| SerialText.TextRoundTrip | internal/source/http.go:170 | Printed serials read back to the number, in either letter case |
| SerialText.TextIsCanonical | internal/source/http.go:157-170 | A serial is printed as the one numeral without leading zeros that denotes it, after a minus sign if negative |
| GetDecoder.Unambiguous | internal/server/handler.go:92-101 | Any two of the four encodings that accept a string decode it to the same bytes |
| GetDecoder.OrderIrrelevant | internal/server/handler.go:121-126 | The decoded request does not depend on the order in which encodings are tried |
| GetDecoder.GetRoundTrip | internal/server/handler.go:112-127 | Every request of 1 to 10240 bytes, in any of the four encodings, fits the cap and decodes to itself |
| GetAcceptance.GetAcceptsIff | internal/server/handler.go:112-127 | A text is accepted as a request if and only if it has 1 to 13656 characters and, without line breaks, is the encoding of that request in one of the four forms, character by character but for the unused bits of the last symbol |
| GetAcceptance.GetRefusesOthers | internal/server/handler.go:121-126 | A text with any character outside one alphabet, with padding elsewhere than at the end, or with a dangling symbol is refused |
| GetDecoder.GetBound | internal/server/handler.go:112-127 | No accepted string decodes to more than 10242 bytes |
| GetDecoder.GetBoundIsExact | internal/server/handler.go:112-120 | That bound is attained |
| GetDecoder.GetLength | internal/server/handler.go:112-127 | An accepted string decodes to exactly three bytes per four characters that are neither padding nor line breaks, rounded down |
| GetDecoder.GetExceedsPostIff | internal/server/handler.go:112-127 | An accepted string decodes to more than the POST limit of 10240 bytes if and only if it has more than 13654 such characters |
| GetDecoder.Rfc4648Vectors | internal/server/handler.go:96-101 | The encoder agrees with published vectors and their unpadded and URL-safe forms, and the two alphabets differ in two symbols only |

## Left out

- ASN.1, X.509, PEM, hashing, signature creation and OCSP request parsing: library code, represented by configuration functions, records or inputs.
- The issuer-binding check of a request: its outcome is an input of `Handle`, taken before cache and source.
- Configuration files, TLS and ACME, server start-up and shutdown, command-line wiring: input/output and field checks.
- POST bodies, response headers, the health endpoint, metrics other than the cache gauge and the retry count, and log lines other than those of the expiry check: they carry no state that answers depend on.
- The static source, which returns one configured value and has no state; the signer's certificate loading, which is library code; its expiry status, which only the health endpoint and the log report.
- Progress: nothing here says that a lock is eventually acquired or that the upstream eventually answers.
- HttpSource.FetchWithRetry: counts completed waits only; a wait that cancellation interrupts is not added to the total.
