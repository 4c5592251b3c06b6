# Verified model of webconfig's stateful core

webconfig is the on-device web interface of an airplanes.live feeder. This Dafny
project models the parts of it that keep state or encode it, and proves what
they promise.

| file | what it models |
|---|---|
| `ClaimStatus.dfy`, `ClaimRuns.dfy`, `ClaimHolds.dfy` | the claim-status cache: one slot, one probe in flight, a rate floor, a stale fallback; then every interleaving of any number of callers, and how long probes are held off |
| `Sessions.dfy` | the session table, its throttled mirror on disk, failing writes, restarts |
| `Lockout.dfy` | the login throttle, against the full record of failures |
| `Phc.dfy`, `Base64.dfy`, `Text.dfy` | the argon2id PHC string: printing, strict parsing, the caps on imported hashes |
| `PasswordStore.dfy` | the hash file, and the start-up check that classifies it |
| `Altitude.dfy`, `AltitudeTies.dfy`, `AltitudeDisplay.dfy` | altitude text to bare metres, where the two implementations differ, and back to what the form shows |
| `FeedEnv.dfy` | the save path: which values are stamped as edited, what is stored, which keys moved |
| `RestoreStream.dfy`, `TextDecoder.dfy`, `RestoreCodec.dfy` | the restore progress stream, from the server's writer to the browser's incremental reader, UTF-8 decoding included |
| `Wifi.dfy`, `WifiImport.dfy` | the Wi-Fi profile list, its id allocator, bulk import |
| `Nmcli.dfy` | the escape-aware splitter of terse nmcli lines |

`dafny verify dfyconfig.toml` checks everything.

## How the model is built

- An object the source updates in place is a class here with the same fields. Each
  of its methods is proved equal to a function on plain values (`Enter`, `Finish`,
  `Do`, `Record`, `Apply`, ...), and the guarantees are lemmas about that function,
  over whole runs where they concern runs.
- A loop of the source is a loop here. Where its body does several things, they are
  methods of their own (`KeepAfter` and `Append` in the throttle, `StoreOne`,
  `StoreUpdates` and `DeriveGeo` in the save path, `InUse` in the id allocator,
  `ImportOne` and `AllNamed` in the import, `CutLines` and `Feed` in the reader).
- `Get` of the claim cache holds its lock in three separate stretches, so it is three
  atomic steps: `Enter`, then `Finish` for the caller that probes or the wake-up of
  one that waited. A run is any sequence of such steps of any callers.
- Clock readings, random bytes, probe results and the success of a disk operation are
  parameters. Runs assume a clock that does not go back, and a constant TTL.
- A zero `time.Time` is `None`. Go's iteration over a map is an arbitrary choice of the
  next key.
- Integer widths are explicit where the code depends on them: 32- and 8-bit PHC
  costs, the 32-bit truncation of recorded lengths, the 64-bit product and the
  saturating difference in the claim cache.

## Where the code and its comments disagree

- `internal/auth/sessions.go:33-37` says a persisted expiry lags by at most the persist
  interval. A write made for another session also restarts the interval, so it can lag
  by up to the interval and the TTL together, less one nanosecond:
  `Sessions.LagExactly`. The documented bound needs a TTL of at most one nanosecond:
  `Sessions.LagMayExceedInterval`.
- `internal/auth/sessions.go:20-24` says the mirror lets sessions survive a service
  restart, and the comment above calls the lag noise. For the same reason a session can
  be lost to a restart in the instant it is touched, with a full TTL left in memory:
  `Sessions.LiveSessionLost`. `Sessions.SurvivesExactly` says which survive.
- `internal/auth/sessions.go:213-215` says a restart may resurrect a session whose
  revocation could not be written. `Sessions.ResurrectedExactly` says which come back.
- `internal/auth/argon2.go:177` calls the 32-bit cast safe. It is exactly below 2^32
  bytes: `Phc.LengthsExact`.
- `internal/auth/argon2.go:233-235` checks for missing parameters; the check cannot
  fire: `Phc.MissingIsUnreachable`. So is the second arm of `bestLocked`:
  `ClaimRuns.SecondArmIsDead`.
- `internal/claimstatus/claimstatus.go:281-292`: a waiting caller is served what the
  slot holds when it wakes, which may be another identity's verdict:
  `ClaimHolds.WaiterMaySeeAnotherIdentity`. When it cannot be is
  `ClaimRuns.RightIdentity`.
- `internal/claimstatus/claimstatus.go:322-330`: a 429 hint is not always honoured while
  its identity stays. It is cut short if its nanoseconds overflow 64 bits, or if an
  older probe of the same identity, launched before the identity went away and came
  back, is still running and stores its own result: `ClaimHolds.OlderProbeCutsHintShort`
  and, exactly, `ClaimHolds.HintKeptExactly`. A change of identity drops every
  hold-off, as the source says at lines 246-247.
- The Go and JavaScript altitude functions are meant to agree byte for byte. As exact
  decimals they do except for ties at the eleventh decimal whose lower neighbour is
  even: `AltitudeTies.AgreeExactly`. The code rounds doubles, so a decimal tie is a tie
  of the code only when the metres are exactly a double. Such ties are odd numbers of
  2^-11 metres, and the two functions differ on every other one of them:
  `AltitudeTies.DyadicsDifferExactly`; `AltitudeTies.TieExample` is one.
- `internal/auth/lockout.go:8-12`: the throttle bounds the failures in every window only
  when the lock outlasts the window: `Lockout.DensityNeedsDuration`.
- `internal/feedmeta/feedmeta.go:176-187`: a value is stamped exactly when the merge moves
  it only while the stored altitude is canonical: `FeedEnv.StampsExactlyMoves`.

## Model

| member | source | states |
|---|---|---|
| `ClaimStatus.Cache.constructor` | `internal/claimstatus/claimstatus.go:231-241` | a new cache is empty and its floor is seven seconds |
| `ClaimStatus.Cache.EnterGet` | `internal/claimstatus/claimstatus.go:248-296` | the first locked stretch of a call: clamp the age, drop the slot on a new identity, then answer, guard, join or launch; the whole new slot |
| `ClaimStatus.Cache.FinishGet` | `internal/claimstatus/claimstatus.go:306-352` | the last locked stretch of the prober: hold-off, verdict or stale fallback, and the channel cleared only if it is still its own |
| `ClaimStatus.Cache.WakeGet` | `internal/claimstatus/claimstatus.go:281-292` | a woken waiter gets the best answer of the slot as it is then, with no comparison of keys |
| `ClaimStatus.Cache.BestLocked` | `internal/claimstatus/claimstatus.go:357-365` | the last answer, else the good one, else a synthesized "unavailable" |
| `ClaimStatus.HintHonoured` | `internal/claimstatus/claimstatus.go:323-330` | the hold-off after a 429 is at least its hint if and only if the hint in nanoseconds fits 64 bits |
| `ClaimStatus.DelayExactly` | `internal/claimstatus/claimstatus.go:322-330` | the hold-off in full: the floor, or, after a 429, its hint reduced to 64 bits in nanoseconds if that is more |
| `ClaimRuns.Keeps` | `internal/claimstatus/claimstatus.go:248-353` | every step of every caller keeps the invariant of slot, channels, waiters and answers |
| `ClaimRuns.Always` | `internal/claimstatus/claimstatus.go:248-353` | the invariant holds after every run, in any interleaving |
| `ClaimRuns.SingleFlight` | `internal/claimstatus/claimstatus.go:278-296` | the slot's probe runs for the slot's key; it is the only outstanding probe since the last key change; of the probes of any epoch at most one is ever outstanding |
| `ClaimRuns.NobodyStranded` | `internal/claimstatus/claimstatus.go:281-315` | each channel is closed at most once, exactly when its probe has landed; a waiter's channel is closed or owned by a running probe for the waiter's key |
| `ClaimRuns.RightIdentity` | `internal/claimstatus/claimstatus.go:255-321` | fresh, guarded and own answers show a probe of the caller's key; a coalesced one does if and only if the slot has a verdict and the caller's key, and always when its channel closed with no key change while it waited |
| `ClaimRuns.AnswerFields` | `internal/claimstatus/claimstatus.go:331-365` | field by field, every answer: verdict, details and time of the probe it shows; not stale and with that probe's hint if shown by it alone; stale, with the failing refresh's result and hint, if flagged by another; a bare "unavailable" if there is none |
| `ClaimRuns.SecondArmIsDead` | `internal/claimstatus/claimstatus.go:357-365` | a good verdict is never without a last answer, and the two agree but for the stale flag, the error and the hint |
| `ClaimRuns.HitExactly` | `internal/claimstatus/claimstatus.go:248-269` | a call is answered from the cache if and only if its identity has a definitive verdict no older than the tolerance, the floor at least |
| `ClaimRuns.FreshInNumbers` | `internal/claimstatus/claimstatus.go:264-269` | fresh means one of the eight definitive results, from a probe that did not fail, no older than the larger of tolerance and floor |
| `ClaimRuns.RateBound` | `internal/claimstatus/claimstatus.go:224-227` | within an epoch each launch comes at least the floor after every earlier probe landed, so n launches in a span T satisfy (n - 1) * floor <= T |
| `ClaimRuns.VerdictsNeverRegress` | `internal/claimstatus/claimstatus.go:331-352` | once an epoch has a definitive verdict, every later answer in it, but for a caller's own result when the slot has left its identity, is definitive and carries the time of the probe that found it |
| `ClaimRuns.LaunchExactly` | `internal/claimstatus/claimstatus.go:254-296` | a call probes if and only if the slot is another identity's, or it has no fresh definitive verdict, is past the hold-off of the result stored last, and every probe since the last key change has landed |
| `ClaimRuns.DoublesExactly` | `internal/claimstatus/claimstatus.go:278-296` | a call has its identity probed twice at once if and only if it probes while a probe of that identity from an earlier epoch is still running |
| `ClaimHolds.HoldExactly` | `internal/claimstatus/claimstatus.go:273-330` | after a result is stored, every continuation keeps launches of the epoch d away if and only if d is at most the floor, or at most the result's hold-off with no other probe of the identity running, or the slot's verdict answers every call until then |
| `ClaimHolds.HintKeptExactly` | `internal/claimstatus/claimstatus.go:322-330` | a 429 hint is honoured in every continuation of the epoch if and only if it is at most the floor, or fits 64 bits with no other probe of the identity running; the remaining case, a verdict that answers every call, cannot be with a floor of whole seconds |
| `ClaimHolds.OlderProbeCutsHintShort` | `internal/claimstatus/claimstatus.go:316-330` | a run in which an older probe of the same identity cuts a hint of a minute to seven seconds, within one epoch |
| `ClaimHolds.WaiterMaySeeAnotherIdentity` | `internal/claimstatus/claimstatus.go:281-292` | a run in which a caller for identity A is given identity B's verdict |
| `ClaimHolds.ReturnToAnOldKeyProbesAgain` | `internal/claimstatus/claimstatus.go:255-263` | a run A, B, A with two probes for A outstanding at once: the bound is per epoch |
| `Sessions.SessionStore.constructor` | `internal/auth/sessions.go:70-79` | a new process starts from what the loader keeps of the file |
| `Sessions.SessionStore.Load` | `internal/auth/sessions.go:88-120` | exactly the live rows with a 64-character key; a missing, unreadable, corrupt or foreign file gives an empty table |
| `Sessions.SessionStore.Persist` | `internal/auth/sessions.go:124-158` | a successful write puts the whole table on disk and restarts the interval; a failed one changes nothing |
| `Sessions.SessionStore.IssueToken` | `internal/auth/sessions.go:164-179` | a fresh session one TTL long, written at once; nothing happens when no random bytes come |
| `Sessions.SessionStore.ValidateToken` | `internal/auth/sessions.go:184-211` | acceptance, sliding expiry, lazy deletion and the throttled write |
| `Sessions.SessionStore.RevokeToken` | `internal/auth/sessions.go:216-223` | the entry goes, and the table is written |
| `Sessions.SessionStore.RevokeEvery` | `internal/auth/sessions.go:230-241` | the table empties whatever happens; failure is reported exactly when a file should go and does not |
| `Sessions.Always` | `internal/auth/sessions.go:88-241` | in every run: memory and disk expiries are bounded, the disk is covered by memory, the mirror is fresh |
| `Sessions.ResurrectedExactly` | `internal/auth/sessions.go:88-241` | a restart brings back a session that is not in memory if and only if its revocation is lost (no write, removal of the file, restart or new issue since it failed), its row is still on disk with a 64-character key, and has not expired |
| `Sessions.RestartNeverResurrects` | `internal/auth/sessions.go:88-241` | what a restart loads is in memory, expiring no earlier there, unless its revocation is lost; whatever failed, no row on disk expires later than the last successful write plus a TTL |
| `Sessions.RestartKeepsExactly` | `internal/auth/sessions.go:88-120` | when every write succeeded a restart keeps exactly the sessions in memory whose copy on disk has a 64-character key and has not expired, at the copy's expiry |
| `Sessions.SurvivesExactly` | `internal/auth/sessions.go:18-40` | in one process, when every write succeeded, a live session survives a restart if and only if it was touched, up to the last write, at most a TTL before the restart |
| `Sessions.LiveSessionLost` | `internal/auth/sessions.go:20-24` | a run whose writes all succeed and after which a session touched at that very instant is lost to a restart |
| `Sessions.AllWrittenIsClean` | `internal/auth/sessions.go:124-158` | with successful writes no revocation is ever lost and no bump pending |
| `Sessions.MirrorLag` | `internal/auth/sessions.go:28-44` | with successful writes every session is on disk, equal to memory or behind by less than the interval and a TTL together |
| `Sessions.BumpLagsExactly` | `internal/auth/sessions.go:203-209` | an accepted validation leaves the copy more than the interval behind if and only if the last write is too recent for another and the copy is from a touch more than the interval ago |
| `Sessions.LagExactly` | `internal/auth/sessions.go:33-37` | a bound on the lag holds of all runs whose writes succeed if and only if it is at least the interval plus the TTL less one nanosecond |
| `Sessions.LagMayExceedInterval` | `internal/auth/sessions.go:33-37` | the documented bound, one interval, holds of all such runs if and only if the TTL is at most one nanosecond |
| `Sessions.FailedRevokeResurrects` | `internal/auth/sessions.go:213-223` | a run in which a revocation that could not be written is undone by a restart: the case that `ResurrectedExactly` characterises does occur |
| `Sessions.TableIsLiving` | `internal/auth/sessions.go:164-223` | the table holds a key exactly while some issue of it is living, with the expiry of its last touch |
| `Sessions.AcceptedExactly` | `internal/auth/sessions.go:184-211` | without restarts a key is accepted if and only if it was issued, not revoked since, and no gap between touches exceeded the TTL; the answer is then one TTL from now, and so is the new expiry in the table |
| `Sessions.TokensAcceptedExactly` | `internal/auth/sessions.go:81-86` | the same of tokens, for a token whose hash no other token of the run shares |
| `Lockout.LoginThrottle.constructor` | `internal/auth/lockout.go:22-31` | a new throttle is open |
| `Lockout.LoginThrottle.IsLocked` | `internal/auth/lockout.go:33-49` | the end of the running lock, if one runs |
| `Lockout.LoginThrottle.RecordFailure` | `internal/auth/lockout.go:52-75` | the filtered list with the new failure, or a lock; a running lock is returned unchanged |
| `Lockout.LoginThrottle.KeepAfter` | `internal/auth/lockout.go:62-68` | filtering into the list's own storage keeps exactly the entries after the cutoff, in order |
| `Lockout.LoginThrottle.Reset` | `internal/auth/lockout.go:77-83` | back to open |
| `Lockout.RunRefines` | `internal/auth/lockout.go:52-83` | after every run the pruned list and the full record agree at every cutoff that can still matter |
| `Lockout.LocksExactly` | `internal/auth/lockout.go:52-75` | the answer is the running lock if there is one, never a later time; otherwise it locks if and only if at least threshold counted failures since the last lock or reset, this one among them, lie in the window |
| `Lockout.StoredIsShort` | `internal/auth/lockout.go:69-73` | the stored list is always shorter than the threshold |
| `Lockout.Density` | `internal/auth/lockout.go:8-12` | with a lock no shorter than the window, no half-open span of one window since the last reset holds more than threshold counted failures, and locks are at least duration apart |
| `Lockout.DensityNeedsDuration` | `internal/auth/lockout.go:8-12` | that bound holds of all runs if and only if the lock is at least as long as the window |
| `Phc.ParsePhcParams` | `internal/auth/argon2.go:187-237` | the loop with its flags computes the parameter parser, error by error |
| `Phc.ParamsAccepted` | `internal/auth/argon2.go:187-237` | accepted if and only if the field is m, t and p in some order, once each, with decimals in range; these are the costs |
| `Phc.MissingIsUnreachable` | `internal/auth/argon2.go:233-235` | the missing-parameter error is never returned |
| `Phc.AcceptedExactly` | `internal/auth/argon2.go:136-185` | a string parses to these parameters, salt and hash if and only if it has six fields framed as argon2id and v=19, gives m of at least 8, t and p of at least 1 once each in any order, and a salt and hash in base64 of at least 8 and 16 bytes, also after reduction of their lengths to 32 bits |
| `Phc.PrintedFields` | `internal/auth/argon2.go:122-131` | the fields of a printed hash: the frame, m, t and p in this order, then salt and hash in base64 |
| `Phc.RoundTrip` | `internal/auth/argon2.go:122-185` | parsing undoes printing for m of at least 8, t and p of at least 1 and any salt and hash of the minimum lengths, the lengths being recorded modulo 2^32 |
| `Phc.LengthsExact` | `internal/auth/argon2.go:172-184` | the recorded lengths are the true ones if and only if both are below 2^32 |
| `Phc.Normalised` | `internal/auth/argon2.go:122-185` | printing what was parsed and parsing again gives the same, for every accepted string |
| `Phc.NormalFormIsUnique` | `internal/auth/argon2.go:122-185` | two accepted strings print alike if and only if they parse alike |
| `Phc.StoredCaps` | `internal/auth/argon2.go:102-120` | a hash printed from its own parameters passes the import check if and only if every parameter is within its cap |
| `Phc.FinalLineFeed` | `internal/auth/argon2.go:157-161` | one more trailing line feed is invisible to the parser |
| `Base64.RoundTrip` | `internal/auth/argon2.go:122-131` | decoding undoes encoding, for every byte string |
| `Base64.EncodesQuantum` | `internal/auth/argon2.go:128-129` | three bytes are four six-bit numbers, most significant first, one symbol each |
| `Base64.Alphabet` | `internal/auth/argon2.go:123` | the symbols are those of section 4 of RFC 4648, in order |
| `Base64.DecodesExactly` | `internal/auth/argon2.go:157-165` | the decoder accepts exactly symbols, CR and LF, with not one symbol left over, and gives three bytes for four symbols, rounded down |
| `PasswordStore.Store.SetupFile` | `internal/auth/store.go:81-99` | create if absent: an existing file is never touched, and which of written, exists and failed is answered when |
| `PasswordStore.Store.ReplaceFile` | `internal/auth/store.go:103-115` | the file is the whole new one if the write moved it, even if the last sync then failed, and else the old one |
| `PasswordStore.Store.Read` | `internal/auth/store.go:66-76` | trailing line feeds are trimmed; a blank file counts as missing |
| `PasswordStore.Store.State` | `internal/server/handlers.go:42-60` | the three-way classification, error cases included |
| `PasswordStore.ReadExactly` | `internal/auth/store.go:66-76` | a read gives the text without its trailing line feeds, and all line feeds read as no file |
| `PasswordStore.StateExactly` | `internal/server/handlers.go:42-60` | uninitialized if and only if the look-up fails or there is no file, or an empty one, or a readable one of line feeds only; initialized if and only if the text, without trailing line feeds, is readable and framed; corrupt if and only if neither |
| `PasswordStore.LooksStoredMeansFramed` | `internal/server/handlers.go:54-59` | the structural test passes if and only if the parser would not refuse the string for its field count, leading separator, algorithm or version |
| `PasswordStore.StoredHashSurvives` | `internal/auth/store.go:66-149` | an accepted hash, once written, reads back to the same parse and the device counts as initialized |
| `PasswordStore.StoredTextExact` | `internal/auth/store.go:66-76` | the text itself comes back unchanged if and only if it ends in no line feed |
| `Altitude.ShapeExact` | `internal/feedmeta/feedmeta.go:84-88` | the parser accepts exactly the texts of the pattern, each in one way |
| `Altitude.CanonIsNearest` | `internal/feedmeta/feedmeta.go:128-158` | the result is the nearest ten-decimal number to the exact metres, in [-1000, 10000], same sign, no trailing fractional zero, no bare point |
| `Altitude.AcceptedExactly` | `internal/feedmeta/feedmeta.go:128-158` | accepted if and only if empty, or of the pattern with metres, rounded to ten decimals, from -1000 to 10000; the empty text stays empty |
| `Altitude.Idempotent` | `internal/feedmeta/feedmeta.go:105-158` | a canonical form is its own canonical form, whichever implementation made it and whichever reads it |
| `AltitudeTies.AgreeExactly` | `web/assets/app.js:604-632` | on exact decimals the two rounding rules give the same answer if and only if the metres are not a tie between an even in-range number of units and the next |
| `AltitudeTies.TieIsDyadic` | `internal/feedmeta/feedmeta.go:140-157` | a tie whose metres are a binary fraction, as a double is, is an odd number of 2^-11 metres |
| `AltitudeTies.DyadicsDifferExactly` | `web/assets/app.js:609-631` | of the numbers j of 2^-11 metres, the two rules differ on those in range with j = 1 modulo 4, and no others |
| `AltitudeTies.TieExample` | `web/assets/app.js:609-631` | on 0.00048828125, which is 2^-11, one rule gives 0.0004882812 and the other 0.0004882813 |
| `AltitudeDisplay.DisplayRoundTrip` | `web/assets/app.js:666-679` | for every stored value and either locale, canonicalising what is shown gives the value back |
| `AltitudeDisplay.FeetShownBack` | `web/assets/app.js:666-679` | every in-range whole number of feet is shown to an imperial viewer as that number of feet |
| `AltitudeDisplay.FeetShownExactly` | `web/assets/app.js:659-679` | feet are shown if and only if the viewer is imperial and the stored value a whole number of feet; otherwise the stored metres |
| `FeedEnv.BuildApplyPayload` | `internal/feedmeta/feedmeta.go:226-252` | the loop over the posted keys, in any order, builds the specified payload |
| `FeedEnv.PayloadExactly` | `internal/feedmeta/feedmeta.go:226-252` | the payload has exactly the posted keys with the posted values; stamped, with the given time and the feeder as editor, are exactly the six tracked keys whose value is new or canonically different |
| `FeedEnv.State.StoreUpdates` | `internal/devfakes/state.go:534-571` | in any order of the updates: every value stored, the changed list naming exactly the keys that moved, once each |
| `FeedEnv.State.DeriveGeo` | `internal/devfakes/state.go:572-581` | the derived flag is stored, and reported if it moved |
| `FeedEnv.State.ApplyFeedEnv` | `internal/devfakes/state.go:534-588` | the merged environment, and the sorted list of exactly the keys whose stored value moved, the derived flag included |
| `FeedEnv.SaveTwiceIsQuiet` | `internal/feedmeta/feedmeta.go:189-252` | applying the same updates again moves nothing, and a payload built against the result stamps nothing |
| `FeedEnv.ChangedIsDetermined` | `internal/devfakes/state.go:525-533` | the reported list depends on the stored values alone, not on the order of the updates |
| `FeedEnv.LessExactly` | `internal/devfakes/state.go:582` | the order of that list is the order of texts by their first difference |
| `FeedEnv.SavedExactly` | `internal/devfakes/state.go:534-581` | what a save leaves under each key: the posted value, an altitude canonically when it can be; after a posted coordinate without an explicit flag, the flag, "false" if and only if both stored coordinates count as zero; and what was there under every other key |
| `FeedEnv.StampsExactlyMoves` | `internal/feedmeta/feedmeta.go:189-222` | for all updates, a tracked key is stamped exactly when the merge moves it, if and only if the stored altitude is canonical or absent |
| `FeedEnv.ApplyCanonicalises` | `internal/devfakes/state.go:550-563` | a merge that sets the altitude leaves it canonical |
| `RestoreStream.Reader.CutLines` | `web/assets/app.js:3981-3985` | the inner loop handles exactly the complete lines of the buffer and keeps the rest |
| `RestoreStream.Reader.Drain` | `web/assets/app.js:3972-3995` | the reader loop computes the incremental reading of the chunks: outcome and events, a failed read and a throwing line included |
| `RestoreStream.StreamIsRead` | `web/assets/app.js:3972-3995` | the incremental reading of any chunks is the reading of their concatenation at once |
| `RestoreStream.ChunkIndependent` | `web/assets/app.js:3975-3988` | two ways of cutting the same bytes into chunks give the same outcome and events |
| `RestoreStream.StreamIsSplit` | `web/assets/app.js:3975-3988` | the lines handled are the newline split of the whole decoded text |
| `RestoreStream.StreamDecides` | `web/assets/app.js:3964-3995` | what a whole body comes to, by its lines: a null line throws after the values before it; otherwise all values are passed on, the last summary is the success, and without one the body counts as truncated |
| `RestoreStream.TrimExactly` | `web/assets/app.js:3965-3966` | a line is handled without the white space at its ends, all of it |
| `TextDecoder.PrefixDecodes` | `web/assets/app.js:3973-3987` | any byte prefix of any text in UTF-8 decodes to the whole characters in it, a byte order mark at the start dropped, and one replacement if it ends within a character |
| `RestoreStream.HandlePrefix` | `web/assets/app.js:3963-3988` | of any prefix of the server's stream, even one cut through a character, exactly the events that came whole are handled |
| `RestoreStream.TruncationIsDetected` | `web/assets/app.js:3987-3995` | the same for any decoder that turns what arrived into a prefix of the text and at most one replacement: exactly the events that came whole are passed on, and success means the whole summary object came |
| `RestoreStream.Response.EmitSection` | `internal/server/backup_handlers.go:499-510` | one more section event on the wire, after all earlier ones |
| `RestoreStream.Response.Restore` | `internal/server/backup_handlers.go:366-385` | the five sections in order, and a summary that says whether the password was applied |
| `RestoreStream.Response.RestoreSetup` | `internal/server/backup_handlers.go:443-454` | the password first, then the four sections, and a plain summary |
| `RestoreStream.BrokenStreamIsDetected` | `web/assets/app.js:3972-3995` | for any byte prefix of the server's stream in any chunks: success if and only if the connection held and all bytes came, bar perhaps the last line feed; the events passed on are, in order, exactly those whose bytes came, without their line feed if the connection held and with it if it was lost |
| `RestoreStream.RestoreEndToEnd` | `internal/server/backup_handlers.go:366-385` | writer and reader together: with the stream received the browser has the five answers in order, and learns of a password change exactly when that section was applied |
| `RestoreCodec.CodecExists` | `web/assets/app.js:3968-3970` | what the stream theorems suppose of the JSON codec is met by some encoder and parser |
| `Wifi.State.UniqueWifiId` | `internal/devfakes/state.go:1092-1111` | the search ends, on the first candidate that no network uses |
| `Wifi.CandidatesDiffer` | `internal/devfakes/state.go:1092-1111` | no candidate id repeats |
| `Wifi.FreshIndex` | `internal/devfakes/state.go:1092-1111` | at most one more candidate is tried than there are networks |
| `Wifi.FreshIdExactly` | `internal/devfakes/state.go:1092-1111` | the id is the prefix and slug if free, and else with the first free number from 2 on |
| `Wifi.State.WifiAdd` | `internal/devfakes/state.go:765-775` | a managed, inactive network with a fresh id, at the end |
| `Wifi.State.WifiUpdate` | `internal/devfakes/state.go:779-797` | the first network with the id is edited; an empty name or key leaves the old one |
| `Wifi.State.WifiDelete` | `internal/devfakes/state.go:800-811` | the first network with the id is taken out |
| `Wifi.State.WifiAdopt` | `internal/devfakes/state.go:816-831` | the first unmanaged network with the id becomes managed under a fresh id |
| `Wifi.State.WifiActivate` | `internal/devfakes/state.go:835-852` | the flag, device and address are set on the id and cleared elsewhere |
| `Wifi.RunKeepsGood` | `internal/devfakes/state.go:765-852` | every run of edits keeps ids distinct and at most one network active |
| `Wifi.ActivateExactly` | `internal/devfakes/state.go:833-852` | afterwards exactly the network with the id is active and has the device and an address, and nothing else changed: one active network if the list holds the id, none if not |
| `Wifi.DeleteTouchesOne` | `internal/devfakes/state.go:799-811` | afterwards no network has the id; the others are as they were, in order |
| `Wifi.DeleteUndoesAdd` | `internal/devfakes/state.go:765-811` | deleting the network just added gives the old list back |
| `WifiImport.ImportBody` | `internal/devfakes/runners.go:804-865` | the two passes: reject the whole payload, or apply it entry by entry |
| `WifiImport.ApplyAll` | `internal/devfakes/runners.go:840-862` | the second pass, its results and its counter |
| `WifiImport.ImportIsSafe` | `internal/devfakes/runners.go:800-865` | the list stays well formed, the active network untouched, the last entry applied to a network decides its settings, and an unreadable or invalid payload changes nothing |
| `WifiImport.ImportAnswers` | `internal/devfakes/runners.go:804-865` | an error for an unreadable body, a refusal if and only if some entry has no name, and otherwise a line for each entry, with its name and network, applied unless it names the active one, and the number applied |
| `WifiImport.LastWordCarries` | `internal/devfakes/runners.go:840-862` | the last entry applied to a network decides its settings |
| `Nmcli.SplitNmcliFields` | `internal/wifi/signal.go:155-187` | the byte loop computes the specified split |
| `Nmcli.SplitLine` | `internal/wifi/signal.go:155-164` | any line at all gives at least one field and at most the limit |
| `Nmcli.RoundTrip` | `internal/wifi/signal.go:155-187` | splitting undoes escaping and joining for fields of any text; a surplus over the limit is joined inside the last field |
| `Nmcli.EscapeExactly` | `internal/wifi/signal.go:155-164` | what the splitter undoes: a backslash before each colon and backslash, and nothing else |
| `Nmcli.DanglingEscape` | `internal/wifi/signal.go:160-186` | a last backslash with nothing after it is dropped |

## Left out

- Floating point: altitudes are exact decimals, so a result that depends on the last bits of an IEEE-754 double is not covered.
- AltitudeTies.AgreeExactly: speaks of the rounding rules on exact decimals; on a text whose metres are not exactly a double both implementations round a nearby double, which is no tie, and that is not modelled, nor is the rounding of feet times 0.3048.
- Altitude.AcceptedExactly: the white space that the JavaScript function trims first is not modelled.
- AltitudeDisplay.DisplayRoundTrip: the number JavaScript reads is modelled for bare decimals, the only texts that are stored; `trim` and `null` inputs are left out.
- Hashing: argon2 and SHA-256 are not modelled; a session is known by its key, and the token hash is any function; where tokens matter, no other token of the run shares the hash.
- JSON: `RestoreStream` assumes of it that an event is one line, reads back as itself, and that no proper prefix of it reads as a value (`RestoreCodec.CodecExists` shows that this can be met); the session file is the table it decodes to.
- TextDecoder.PrefixDecodes: strings are sequences of whole characters, where JavaScript holds UTF-16 code units.
- RestoreStream.Reader.Drain: starts when the response body is open; the branches before that are single tests, and an exception thrown by the event callback is not modelled.
- ClaimStatus.Cache.EnterGet: `checkedAt` keeps full precision where the source formats it to the second; the probe command and its output parser are left out.
- ClaimStatus.Cache.WakeGet: mutual exclusion and the memory model are taken for granted: a locked stretch is one atomic step.
- Sessions.AcceptedExactly: is about one process; what a restart keeps is `Sessions.RestartKeepsExactly`, and what it brings back after a failed write `Sessions.ResurrectedExactly`.
- Lockout.LoginThrottle.RecordFailure: the growth of Go's `append` is one possible capacity rule; a different one changes only the unused tail.
- PasswordStore.Store.SetupFile: temporary files, permissions, links, renames and syncs are one atomic write that may fail at three points; the store's mutex is left out.
- FeedEnv.State.ApplyFeedEnv: whether a coordinate text is numerically zero is a parameter; the runtime files rewritten afterwards are a success flag.
- Wifi.State.UniqueWifiId: the slug of a network name (case folding and character classes) is a parameter; so is the random UUID.
- WifiImport.ImportIsSafe: is about lists with distinct ids and at most one active network, which every edit keeps; entries arrive decoded.
- Nmcli.SplitLine: characters stand for bytes; a negative limit, with which the source cannot allocate its result, is left out.
- HTTP routing, cookies, event streams, subprocesses and the page's forms: plumbing without an invariant of its own.
- The ordering of a login's final hash re-read against a concurrent password change.
- Status mappers, hardware probes, receiver enumeration, the sudoers list and the schema cache: finite switches or parsing of other programs' output.
