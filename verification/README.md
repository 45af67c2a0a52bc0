# A Dafny model of peryx

peryx is a package and registry server.  This project models eight of its components and proves what
they keep over every input, every run or every interleaving.

- **Digest revocation** (`Revocations`).  A tri-state flag, a decision cache and a readers/writer gate over
  an authoritative store, as a machine of interleaved steps: lookups, `put`, `lift`, retirement of replicated
  pages, replica commits outside the gate, and expiry at any time.
- **OCI trash and its journal** (`OciTrash`, `OciStore`, `OciJournal`).  The transitions as functions on
  rows, the store's methods and loops proved to compute them, and the replay of the outbox.
- **Upstream tokens** (`TokenCache`, `TokenFlight`, `Challenge`, `ChallengeGrammar`).  The bounded cache in
  place, the single flight as a machine of interleaved steps over that same cache, and the challenge
  scanners against a grammar.
- **Manifest-graph walk** (`MirrorWalk`).
- **Rate limiting and admission** (`RateLimit`, `Admission`).
- **Archives** (`Utf8`, `TextPaging`, `Zip`, `ZipRecords`).  Text paging, and a ranged ZIP read from the
  archive's tail to a member's bytes.
- **Pagination** (`TrashPages`, `Retention`).
- **Percent-encoding** (`Percent`).

`Common` and `Sorting` hold what the components share.  `dafny verify dfyconfig.toml` checks everything.

Code that updates state in place is a class or a method with loops, proved against a function of the old
state; what the source promises is then proved of that function.  Concurrent protocols are machines whose
steps are the pieces between which another task can run.  Lookups in storage, caches of foreign libraries,
clocks and callbacks are parameters or free steps.  Nothing here was executed.

Where the code and its own words, or the standard it follows, differ, the model follows the code, gives an
input, and proves exactly when they agree:

- `restore_manifest` can discard a newer trash record of a re-pushed tag (`RestoreDiscardsNewerTrash`); exact
  condition: `RestoreKeepsOtherTrash`.
- Malformed escapes are said to be left for the decoder to reject, yet canonicalizing can turn a malformed
  path into one that decodes (`MalformedMayTurnValid`); exact conditions: `MeaningKeptIff`, `TurnsValidIff`
  and `IdempotentIff`.
- The hexadecimal parser takes a plus sign as a first digit, which section 2.1 of RFC 3986 does not
  (`PlusIsADigit`); exact condition: `DecodeStrictlyIff`.
- A malformed text member can page without an error (`MalformedMayPage`); exact conditions: `PagesIff`,
  `UnreportedIff` and `PagingServesMemberIff`.
- A page of the trash listing can hand out a cursor longer than the query accepts (`LongNameStops`); exact
  condition: `PagesReassemble`.
- A ZIP search that reports a member missing is said to have seen a well-formed directory, yet up to 45 stray
  bytes at its end are not looked at (`StrayByteMissing`); exact condition: `MissingDespiteIff`.
- A retention page without a cursor can leave decisions behind when a driver ignores the halt
  (`SwallowedHaltLoses`); exact condition: `LostIff`.

## Model

| member | source | states |
|---|---|---|
| `Revocations.RunInv` | crates/peryx-driver/src/revocations.rs:46-170 | the protocol invariant (who holds the gate, what the flag and each cached decision may have missed, what each thread has seen) holds in every state of every interleaving, including expiry at any time and replica commits outside the gate |
| `Revocations.NextInv` | crates/peryx-driver/src/revocations.rs:46-170 | each of the twenty kinds of step of lookups, writers, retirements, replica commits and expiry keeps that invariant |
| `Revocations.Coherence` | crates/peryx-driver/src/revocations.rs:46-170 | in every reachable state the flag is unknown or equals the store's has-active answer unless a replicated page awaits retirement, and each cached decision equals the store's unless its digest awaits retirement or the gate-holding writer has committed it and not yet dropped it |
| `Revocations.Linearizable` | crates/peryx-driver/src/revocations.rs:46-66 | with no replicated page that wrote the digest pending when the call begins, the value `decision` returns was the store's answer at some instant between its first step and its return |
| `Revocations.NeverOlder` | crates/peryx-driver/src/revocations.rs:46-139 | an answer is never older than a local commit before the call began, nor than a replicated commit retired before it began |
| `Revocations.PutIsSeen` | crates/peryx-driver/src/revocations.rs:70-92 | a decision begun after the transaction of `put` is Revoked until the digest is lifted or a replica commit writes it, whatever pages are still pending and even if `put` found the row already active |
| `Revocations.StaysRevoked` | crates/peryx-driver/src/revocations.rs:70-117 | over any run, no step but a lift of the digest or a replica commit that writes it makes a revoked digest clear |
| `Revocations.AnswerIff` | crates/peryx-driver/src/revocations.rs:57-63 | a digest is Revoked exactly when its row is active, and Clear when it has none or a lifted one |
| `Revocations.CommitRows` | crates/peryx-driver/src/revocations.rs:70-117 | `put` leaves an active row, `lift` a lifted one where there was a row, and neither touches another row |
| `Revocations.LiftIsSeen` | crates/peryx-driver/src/revocations.rs:94-117 | a decision begun after the transaction of `lift` is Clear until the digest is put or a replica commit writes it, whatever pages are still pending |
| `Revocations.StaysCleared` | crates/peryx-driver/src/revocations.rs:70-117 | over any run, no step but a put of the digest or a replica commit that writes it makes a digest without an active row revoked |
| `Revocations.FastPaths` | crates/peryx-driver/src/revocations.rs:46-66 | a flag known to be clear answers without the gate, a known one otherwise goes to the cache, a cached decision is the answer, and what was read is what is cached and published |
| `Revocations.RetiredPageIsSeen` | crates/peryx-driver/src/revocations.rs:119-139 | a decision begun after `invalidate_replicated` returned is never older than the page it retired |
| `Revocations.PutIsSeenApplies` | crates/peryx-driver/src/revocations.rs:46-92 | a run of a `put` and a later decision, step by step, that meets every hypothesis of the results on local commits |
| `Revocations.LiftIsSeenApplies` | crates/peryx-driver/src/revocations.rs:46-117 | a run that lifts a revoked digest and asks again, which meets those on lifts |
| `Revocations.RetiredPageApplies` | crates/peryx-driver/src/revocations.rs:46-139 | a run of a replica commit, its retirement and a later decision that meets those on retired pages |
| `Revocations.VersionWasStore` | crates/peryx-driver/src/revocations.rs:46-66 | every version a reader may have seen between two states of a run was the whole store at some instant between them |
| `OciTrash.RunInv` | crates/peryx-ecosystem-oci/src/store.rs:198-817 | over every run of publish, mirror-publish, trash and restore transitions: live and trashed tags are disjoint, each trash record holds distinct captured tags, none of them live at that digest, each of them live or trashed, and every digest a row names is recorded |
| `OciTrash.TrashManifestInv` | crates/peryx-ecosystem-oci/src/store.rs:668-717 | deleting a digest with the tags its scan captured keeps those invariants |
| `OciTrash.RestoreTagInv` | crates/peryx-ecosystem-oci/src/store.rs:724-777 | restoring one tag, and releasing it from its digest's record, keeps them |
| `OciTrash.RestoreManifestInv` | crates/peryx-ecosystem-oci/src/store.rs:780-817 | restoring a digest, skipping the captured tags whose slot is taken, keeps them |
| `OciTrash.MirrorPublishInv` | crates/peryx-ecosystem-oci/src/store.rs:198-225 | a mirror fill keeps them because it is refused while the target or any consulted index holds trash for the reference |
| `OciTrash.MirrorRows` | crates/peryx-ecosystem-oci/src/store.rs:198-225 | a mirror fill publishes if and only if no consulted index has that tag or that digest in its trash; then the digest and its children are recorded and the tag points at it, and no other row changes |
| `OciTrash.PublishRows` | crates/peryx-ecosystem-oci/src/store.rs:394-422 | a publication records the digest and its children, points the tag at it, takes both out of the trash and touches no other row |
| `OciTrash.TrashManifestRows` | crates/peryx-ecosystem-oci/src/store.rs:668-717 | a digest served and not yet trashed takes exactly the tags that point at it into the trash, with its digest and evidence; otherwise no row changes |
| `OciTrash.RestoreTagRows` | crates/peryx-ecosystem-oci/src/store.rs:724-777 | the tag points at its digest again, its record loses that tag alone and keeps the others in order, or is cleared with the last, and no other row changes |
| `OciTrash.RestoreManifestRows` | crates/peryx-ecosystem-oci/src/store.rs:780-817 | each captured tag whose slot is free points at the digest again and leaves the trash, every other tag stays as it is, and the record is cleared |
| `OciTrash.ReferencesNeverLost` | crates/peryx-ecosystem-oci/src/store.rs:631-817 | over any run, a tag that was live or trashed stays live or trashed |
| `OciTrash.TrashThenRestoreTag` | crates/peryx-ecosystem-oci/src/store.rs:631-751 | `trash_tag` then `restore_tag` is the identity on all rows |
| `OciTrash.TrashThenRestoreManifest` | crates/peryx-ecosystem-oci/src/store.rs:668-817 | `trash_manifest` then `restore_manifest` is the identity on all rows and restores exactly the captured tags |
| `OciTrash.RestoresCommute` | crates/peryx-ecosystem-oci/src/store.rs:724-817 | while every captured tag is still trashed, restoring them one by one in any order equals one `restore_manifest` |
| `OciTrash.Confluence` | crates/peryx-ecosystem-oci/src/store.rs:668-817 | after `trash_manifest`, single-tag restores in any order end where one `restore_manifest` ends if and only if the deletion captured a tag |
| `OciTrash.RestoreKeepsOtherTrash` | crates/peryx-ecosystem-oci/src/store.rs:780-817 | `restore_manifest` keeps every other digest's tag trash if and only if no captured tag has since been trashed at another digest |
| `OciTrash.RestoreDiscardsNewerTrash` | crates/peryx-ecosystem-oci/src/store.rs:799-807 | a reachable run in which `restore_manifest` overwrites the newer trash record of a re-pushed tag |
| `OciStore.Store.PublishManifest` | crates/peryx-ecosystem-oci/src/store.rs:394-422 | publishes the manifest and its tag, clears the digest's and the tag's trash, journals one mutation when the outbox is on, and reports a change exactly when a tag or trash row changed or the digest is new to the repository, and an allocation exactly when the tag moved or, without a tag, the digest is new |
| `OciStore.Store.RecordMirrored` | crates/peryx-ecosystem-oci/src/store.rs:198-225 | publishes without a journal entry if and only if no consulted index has that tag or that digest in its trash: the digest and its children are recorded, the tag points at it and no other row changes; otherwise nothing changes |
| `OciStore.Store.MoveTagToTrash` | crates/peryx-ecosystem-oci/src/store.rs:631-663 | moves a live tag to trash with its digest, or reports missing, changes nothing and journals nothing |
| `OciStore.Store.MoveManifestToTrash` | crates/peryx-ecosystem-oci/src/store.rs:668-717 | captures exactly the live tags at the digest, in scan order, or reports missing and changes nothing |
| `OciStore.Store.CaptureTags` | crates/peryx-ecosystem-oci/src/store.rs:687-702 | the loop over the repository's tags moves those at the digest and no others |
| `OciStore.Store.RestoreOneTag` | crates/peryx-ecosystem-oci/src/store.rs:724-751 | relights the tag at its captured digest and releases it from the digest's record, or reports missing and changes nothing |
| `OciStore.Store.ReleaseTrashedTag` | crates/peryx-ecosystem-oci/src/store.rs:759-777 | drops the tag from its record, the record with its last tag, and leaves a record that never captured it |
| `OciStore.Store.RestoreDigest` | crates/peryx-ecosystem-oci/src/store.rs:780-817 | relights the captured tags whose slot is free, reports the others as conflicts, removes the record, and journals what it relit |
| `OciStore.Store.RelightFree` | crates/peryx-ecosystem-oci/src/store.rs:796-807 | the loop splits the captured tags into restored and conflicts by the rows before it, in order |
| `OciStore.Store.Replicates` | crates/peryx-ecosystem-oci/src/outbox.rs:1-75 | after any sequence of the store's methods with the outbox on, folding its journal gives exactly its live tags, its trashed tags with their digests and its captured tags, on every index no mirror run filled |
| `OciJournal.EmittedIsEnough` | crates/peryx-ecosystem-oci/src/outbox.rs:26-75 | each hosted transition emits one mutation whose payload alone does to the tag and trash maps what the transition did, or emits nothing and changed nothing |
| `OciJournal.JournalRebuilds` | crates/peryx-ecosystem-oci/src/outbox.rs:1-75 | folding the journal in order rebuilds exactly the live, trashed and captured tags of every index no mirror run fills, over any run |
| `OciJournal.JournalRebuildsAll` | crates/peryx-ecosystem-oci/src/quota.rs:296-333 | without mirror fills the fold rebuilds the three maps whole |
| `TokenCache.TokenCache.Get` | crates/peryx-ecosystem-oci/src/token_cache.rs:69-82 | hits if and only if the key has a live entry of the caller's identity, with its value, which becomes the most recent; drops an entry exactly when it is the key's and has expired; bytes stay the sum of the weights |
| `TokenCache.TokenCache.Insert` | crates/peryx-ecosystem-oci/src/token_cache.rs:88-110 | sweeps what expired, replaces the key, and leaves the largest most-recently-used suffix within both budgets; bytes never underflow |
| `TokenCache.TokenCache.SweepExpired` | crates/peryx-ecosystem-oci/src/token_cache.rs:134-144 | removes exactly the expired entries |
| `TokenCache.TokenCache.EvictToBudget` | crates/peryx-ecosystem-oci/src/token_cache.rs:147-165 | sorting by use and removing from the front until both budgets hold leaves the largest suffix by use that fits |
| `TokenCache.LargestSuffixUnique` | crates/peryx-ecosystem-oci/src/token_cache.rs:147-165 | that suffix is unique, so the contract of eviction determines its result |
| `TokenCache.EvictedAreOldest` | crates/peryx-ecosystem-oci/src/token_cache.rs:147-165 | whatever is evicted was used before whatever survives, and putting the latest victim back exceeds a budget |
| `TokenCache.InsertSurvivesIff` | crates/peryx-ecosystem-oci/src/token_cache.rs:88-110 | a stored token survives its own insert, as written and most recent, if and only if base, scope and token are at most two mebibytes; one that does not empties the cache |
| `TokenCache.StoreKeepsIff` | crates/peryx-ecosystem-oci/src/token_cache.rs:88-169 | an insert keeps another entry, unchanged, if and only if it has not expired and the new token fits 512 entries and two mebibytes together with it and every live entry used since |
| `TokenCache.LookupDropsIff` | crates/peryx-ecosystem-oci/src/token_cache.rs:69-82 | a lookup drops an entry if and only if it is the key's and its deadline is not after now, and answers the live token of the caller's identity if there is one |
| `TokenCache.CappedTokenSurvives` | crates/peryx-ecosystem-oci/src/upstream.rs:633-645 | a token from a response within the one-mebibyte cap survives its insert under any key of at most a mebibyte |
| `TokenCache.NothingEvicted` | crates/peryx-ecosystem-oci/src/token_cache.rs:147-150 | a cache within budget loses nothing |
| `TokenCache.RunFits` | crates/peryx-ecosystem-oci/src/token_cache.rs:63-169 | over any run both budgets hold after every operation and no two entries share a use number, so the sort never needs its tie-break |
| `TokenCache.HitIsLatestWrite` | crates/peryx-ecosystem-oci/src/token_cache.rs:69-110 | over any run every hit is the last write of that key, by that identity, not yet expired: the cache refines the map that forgets nothing |
| `TokenCache.HitIff` | crates/peryx-ecosystem-oci/src/token_cache.rs:69-165 | over any run a lookup answers the last token written for its key if and only if the identity is the writer's, the deadline is ahead, the token fit alone and no operation since found it expired or needed its room; otherwise nothing |
| `TokenCache.KeptIff` | crates/peryx-ecosystem-oci/src/token_cache.rs:69-165 | over any run a written entry is still there, with what was written, if and only if it fit alone and every operation since spared it |
| `TokenCache.EvictionByRecency` | crates/peryx-ecosystem-oci/src/token_cache.rs:69-165 | over any run, an insert evicts only entries last stored or served before every entry it keeps |
| `TokenCache.DeadlineIsSafe` | crates/peryx-ecosystem-oci/src/token_cache.rs:189-199 | a retained token's deadline is in the future, at most an hour less the skew away, and the skew ahead of the realm's own |
| `TokenCache.DeadlineIs` | crates/peryx-ecosystem-oci/src/token_cache.rs:189-199 | the deadline is five seconds short of the declared lifetime, an hour at most and a minute if silent, counted from the issue time or from now if that is earlier, and the token is retained if and only if that is ahead |
| `TokenCache.ArithmeticFitsIff` | crates/peryx-ecosystem-oci/src/token_cache.rs:196-198 | the 64-bit subtraction is exact if and only if the declared lifetime is at least four seconds or the spent time leaves room for it, and the sum is exact until the last hour of time |
| `TokenCache.ReceivedTimesFit` | crates/peryx-ecosystem-oci/src/upstream.rs:867-873 | for every issue time an RFC 3339 string denotes and every clock time short of the end, the difference does not saturate and the subtraction and the sum are exact |
| `TokenCache.RetainedIff` | crates/peryx-ecosystem-oci/src/token_cache.rs:189-199 | a token with its whole lifetime ahead is retained if and only if that lifetime is absent or longer than the skew |
| `TokenFlight.RunInv` | crates/peryx-ecosystem-oci/src/upstream.rs:403-465 | the single-flight invariant holds in every state of every interleaving, with failing, timed-out and cancelled leaders and waiters and the real cache underneath |
| `TokenFlight.SlotIffOneLeader` | crates/peryx-ecosystem-oci/src/upstream.rs:83-92 | an in-flight slot exists for a key exactly while one leader runs, and no key ever has two, so exchanges never overlap |
| `TokenFlight.ExchangeIsNeeded` | crates/peryx-ecosystem-oci/src/upstream.rs:433-465 | from election until the realm answers, no lookup at any time finds a token for the leader's credential other than the one it saw rejected |
| `TokenFlight.ResultWasIssued` | crates/peryx-ecosystem-oci/src/upstream.rs:403-431 | every token a leader or waiter returns was issued by an exchange for its own key |
| `TokenFlight.WaiterReceives` | crates/peryx-ecosystem-oci/src/upstream.rs:154-163 | a waiter that receives from a published flight returns that token for good; from a closed one it goes back to electing |
| `TokenFlight.WaiterOutcome` | crates/peryx-ecosystem-oci/src/upstream.rs:403-431 | a waiter on a flight that comes to be published never starts over: it still waits, it returned that token, or it gave up |
| `TokenFlight.LeaderReturns` | crates/peryx-ecosystem-oci/src/upstream.rs:413-423 | a leader that was issued a token returns it and its flight publishes it; one that failed returns nothing and its flight closes |
| `TokenFlight.EnterOutcome` | crates/peryx-ecosystem-oci/src/upstream.rs:439-442 | a task that finds a slot for its key waits on that very flight, and one that finds none holds the lock and elects |
| `TokenFlight.DecideOutcome` | crates/peryx-ecosystem-oci/src/upstream.rs:443-465 | with no slot, a live cached token of the caller's credential other than the rejected one is handed out on a flight of its own, and otherwise the caller takes the slot and leads |
| `TokenFlight.RetainedIsFound` | crates/peryx-ecosystem-oci/src/upstream.rs:493-505 | a retained token that fits the byte budget is what a lookup by its identity before its deadline finds next |
| `TokenFlight.NoWaiterStranded` | crates/peryx-ecosystem-oci/src/upstream.rs:154-163 | a waiter's own flight is settled, or the task that owns it, another task on the same key, is still on that flight and can take its next step, at worst once the holder of the lock has decided |
| `TokenFlight.OwnerAdvances` | crates/peryx-ecosystem-oci/src/upstream.rs:403-431 | each step of a flight's owner brings it closer to settling the flight, and no step of another task sets it back |
| `TokenFlight.SettledInFour` | crates/peryx-ecosystem-oci/src/upstream.rs:403-431 | over any run a flight stays open for at most three steps of its owner: the fourth publishes or closes it |
| `TokenFlight.PublishedForGood` | crates/peryx-ecosystem-oci/src/upstream.rs:403-431 | what a flight published or closed with never changes, so all its waiters see one result |
| `Challenge.UnescapeQuoted` | crates/peryx-ecosystem-oci/src/upstream.rs:803-821 | on header text the unescaping path, entered at the first backslash, reads what the reference reader reads |
| `Challenge.AuthValue` | crates/peryx-ecosystem-oci/src/upstream.rs:788-801 | the borrowed and the unescaping path agree on all header text; tokens and unterminated strings included |
| `Challenge.ParseBearerParameters` | crates/peryx-ecosystem-oci/src/upstream.rs:722-767 | the loop with its three fields and its list of extension names computes the parameter list's challenge, or nothing on a malformed or duplicate parameter |
| `ChallengeGrammar.QuotedRoundTrip` | crates/peryx-ecosystem-oci/src/upstream.rs:788-821 | any string, with any choice of escapes that a quoted string allows, reads back to itself and the tail |
| `ChallengeGrammar.UnquoteIsQuoted` | crates/peryx-ecosystem-oci/src/upstream.rs:788-821 | whatever reads as a quoted string is such a form |
| `ChallengeGrammar.ParamsIff` | crates/peryx-ecosystem-oci/src/upstream.rs:722-821 | the scanners read a list of parameters if and only if the text spells it: names, optional white space, tokens or quoted strings, commas, up to something that is not a parameter |
| `ChallengeGrammar.ParsedIff` | crates/peryx-ecosystem-oci/src/upstream.rs:722-767 | a text parses to a challenge if and only if it spells parameters with distinct names, whatever their case, carrying a nonempty realm and that service and scope |
| `ChallengeGrammar.SameNameIff` | crates/peryx-ecosystem-oci/src/upstream.rs:732-756 | two names are the same if and only if they agree letter by letter but for ASCII case |
| `ChallengeGrammar.CharactersAre` | crates/peryx-ecosystem-oci/src/upstream.rs:823-837 | a token character is a visible one that is no delimiter, white space is a space or a tab, and a backslash quotes either of these or a visible character |
| `ChallengeGrammar.DuplicateRejected` | crates/peryx-ecosystem-oci/src/upstream.rs:732-756 | any duplicate name rejects the challenge, whatever its case or place |
| `ChallengeGrammar.AnyOrder` | crates/peryx-ecosystem-oci/src/upstream.rs:722-767 | two texts that spell the same parameters in any two orders, with any layout, parse alike |
| `MirrorWalk.Walk.ScheduleChildren` | crates/peryx-ecosystem-oci/src/mirror.rs:290-315 | enqueues each unvisited child once, in order, at the given depth, and stops at the first new one deeper than 32 or past 1024 digests, with one row that names it and that bound |
| `MirrorWalk.Walk.WalkManifest` | crates/peryx-ecosystem-oci/src/mirror.rs:829-884 | for any graph the walk ends; each digest is scheduled at most once, in the order it is first named, at its shortest distance, at most 1024 of them, none deeper than 32; without a store fault it completes if and only if everything reachable through accepted manifests fits those bounds, and then scheduled exactly that; the report is the root's blobs, then the rows of each manifest handled, in order, and on a bounded walk last the row of the first new child to break a bound |
| `MirrorWalk.Contributes` | crates/peryx-ecosystem-oci/src/mirror.rs:852-857 | each manifest handled adds its own rows to the report and its own children to what is named, at its own place |
| `MirrorWalk.FirstsAt` | crates/peryx-ecosystem-oci/src/mirror.rs:298-301 | a digest new where it is named is scheduled right after those first named before it |
| `MirrorWalk.FetchLevel` | crates/peryx-ecosystem-oci/src/mirror.rs:845-851 | a level is fetched whole and faults if and only if one of its manifests does |
| `MirrorWalk.NothingBeyond` | crates/peryx-ecosystem-oci/src/mirror.rs:844-859 | once a level is empty nothing lies beyond it |
| `RateLimit.RateLimiter.Check` | crates/peryx-driver/src/rate_limit.rs:221-252 | charges the window the instant falls in, counts, and denies with the seconds left exactly when that window is full; an unlimited class is never charged |
| `RateLimit.RateLimiter.Probe` | crates/peryx-driver/src/rate_limit.rs:261-276 | denies if and only if a charge at the same instant would, with the same advice, and changes no bucket |
| `RateLimit.AdviceReachesResetIff` | crates/peryx-driver/src/rate_limit.rs:247-251 | heeding the retry advice reaches the next window if and only if less than a second, or a whole number of seconds, is left of this one: the remainder is floored |
| `RateLimit.IntervalBound` | crates/peryx-driver/src/rate_limit.rs:221-252 | over any nondecreasing clock and any mix of keys, a bucket admits at most twice its limit less one in any interval of one window length |
| `RateLimit.WindowBound` | crates/peryx-driver/src/rate_limit.rs:221-252 | while a window lasts its bucket admits at most its limit |
| `RateLimit.ChargeLeaves` | crates/peryx-driver/src/rate_limit.rs:221-252 | a charge leaves every other bucket alone, counts one in its window if that has a request left, and opens a window of its seconds from the charge on where none lasts |
| `RateLimit.BoundReached` | crates/peryx-driver/src/rate_limit.rs:221-252 | for every limit some run reaches that interval bound, so it is exact |
| `RateLimit.SkewBound` | crates/peryx-driver/src/rate_limit.rs:221-252 | when charges reach a bucket out of clock order by less than a window, it admits at most three times its limit less two of the charges of any interval of one window length |
| `RateLimit.SkewBoundReached` | crates/peryx-driver/src/rate_limit.rs:221-252 | for every limit such a run reaches that bound |
| `Admission.RunInv` | crates/peryx-driver/src/rate_limit.rs:394-491 | across any interleaving of acquire, reject, wait, timeout and stepwise release, every permit of the three semaphores is either available or held by exactly one fetch |
| `Admission.IndexBounds` | crates/peryx-driver/src/rate_limit.rs:526-545 | active work never exceeds the cap or the admitted work, admitted work never exceeds five times the cap, and the in-flight and waiting counts are exact |
| `Admission.SnapshotBounds` | crates/peryx-driver/src/rate_limit.rs:494-510 | a snapshot that reads the semaphores at three different instants still reports no more active than the cap and no more waiting than was admitted when it read that |
| `Admission.ProcessBound` | crates/peryx-driver/src/rate_limit.rs:420-452 | over all gates of all siblings, admitted work never exceeds the one process budget |
| `Admission.AllReturned` | crates/peryx-driver/src/rate_limit.rs:400-409 | when no fetch is left inside, every permit is back, whatever path each took |
| `Admission.RejectedIff` | crates/peryx-driver/src/rate_limit.rs:475-480 | a fetch is turned away if and only if 1024 hold the process budget, or five times the cap its index's allowance, and is admitted otherwise |
| `Admission.IndexAdmissionsIs` | crates/peryx-driver/src/rate_limit.rs:412-416 | an index may hold five times its cap of active and waiting work, up to the most permits a semaphore has |
| `Admission.UncappedPasses` | crates/peryx-driver/src/rate_limit.rs:467-474 | a fetch of an index without a cap is let through and never holds a permit |
| `Admission.WaitsOnlyForCap` | crates/peryx-driver/src/rate_limit.rs:481-485 | an admitted fetch can proceed if and only if fewer fetches than the cap are active on its index |
| `Utf8.ValidIffWellFormed` | crates/peryx-archive/src/engine.rs:151-152 | the validator's report is valid exactly for the sequences of section 4 of RFC 3629 |
| `Utf8.WellFormedIff` | crates/peryx-archive/src/engine.rs:151-152 | octets are well-formed if and only if they are those of some code points, surrogates excepted, by the table of section 3 of RFC 3629 |
| `Utf8.BoundaryIffNotContinuation` | crates/peryx-archive/src/engine.rs:164-177 | in well-formed text a position is a character boundary if and only if no continuation byte is there |
| `TextPaging.ReadFromCurrent` | crates/peryx-archive/src/engine.rs:291-308 | reads the rest or the limit, points past it while bytes remain, and reports a member shorter than it declares |
| `TextPaging.ReadSlice` | crates/peryx-archive/src/engine.rs:269-289 | rejects an offset past the end and a range past the inspection limit, reports a stream that ends early, and otherwise yields that slice, paged by the declared size even if the stream goes on past it |
| `TextPaging.MemberChunk.RealignToCharBoundary` | crates/peryx-archive/src/engine.rs:164-177 | drops one to three leading continuation bytes after a seek, and no others |
| `TextPaging.AlwaysProgresses` | crates/peryx-archive/src/engine.rs:149-161 | the next offset of a served chunk is always past the offset asked for, whatever the member |
| `TextPaging.ChunkAtBoundary` | crates/peryx-archive/src/engine.rs:149-177 | from a character boundary of a well-formed member a chunk is served if and only if the first character fits the limit, and is then whole characters from there on |
| `TextPaging.PagesFromBoundary` | crates/peryx-archive/src/engine.rs:149-177 | from any character boundary of a well-formed member, with any limit, paging reaches the end if and only if every character left fits the limit, as each fits four bytes; every chunk is then text and the chunks concatenate to the rest of the member |
| `TextPaging.PagesAreText` | crates/peryx-archive/src/engine.rs:149-161 | every served chunk of any member is well-formed |
| `TextPaging.PagingServesMemberIff` | crates/peryx-archive/src/engine.rs:149-177 | for any limit, following the next offset from the start serves the member unchanged if and only if it is well-formed and every character fits the limit |
| `TextPaging.PagesIff` | crates/peryx-archive/src/engine.rs:149-177 | for any member and limit, paging meets no error if and only if the member falls into pieces of at most three stray continuation bytes and well-formed text, cut where the limit or the character before it ends; the pages are then the texts, and the member is the pages with exactly the stray bytes put back |
| `TextPaging.UnreportedIff` | crates/peryx-archive/src/engine.rs:149-177 | for any limit a malformed member goes unreported if and only if it falls into such pieces with some stray bytes |
| `TextPaging.MalformedMayPage` | crates/peryx-archive/src/engine.rs:164-177 | a six-byte member of that kind |
| `TextPaging.MidCharacterStart` | crates/peryx-archive/src/engine.rs:149-177 | from inside a character the chunk begins at the next boundary, or at its own cut when a limit below four ends before it, and is served if and only if it reaches no character or the one there fits before the cut; seven bytes always suffice |
| `Zip.FindZipEntry` | crates/peryx-archive/src/zip_range.rs:126-164 | the loop over record positions computes the reference search, every field read in bounds for every input |
| `Zip.FirstEntryDecides` | crates/peryx-archive/src/zip_range.rs:126-164 | in an encoded directory the first entry of the name decides: its fields, or Unsupported when its flags or a ZIP64 field put it beyond the reader, whatever follows it |
| `Zip.AbsentIsMissing` | crates/peryx-archive/src/zip_range.rs:126-164 | a well-formed directory without the name gives Missing; fewer than 46 stray bytes at its end are not looked at |
| `Zip.MissingDespiteIff` | crates/peryx-archive/src/zip_range.rs:126-164 | a name is reported missing from bytes that are no encoded directory if and only if one to 45 stray bytes follow a directory without it |
| `Zip.StrayByteMissing` | crates/peryx-archive/src/zip_range.rs:126-164 | one stray byte alone is such an input |
| `Zip.SearchExplained` | crates/peryx-archive/src/zip_range.rs:126-164 | every search of every input ends at an encoded entry of that name with no earlier one, at the end of an encoded directory without it, or at the first bytes that are not a record |
| `Zip.ReadableIff` | crates/peryx-archive/src/zip_range.rs:36-39 | the readable flags are exactly the sums of general-purpose bits 1, 2, 3 and 11 |
| `Zip.ReadingIs` | crates/peryx-archive/src/zip_range.rs:142-160 | an entry is Unsupported if and only if it has another flag or a field that defers to ZIP64, and is otherwise found with its own fields |
| `Zip.SignaturesAre` | crates/peryx-archive/src/zip_range.rs:22-27 | the three signatures are the numbers APPNOTE gives, lowest byte first |
| `Zip.HeadIsWritten` | crates/peryx-archive/src/zip_range.rs:291-305 | whatever the reader takes for a central record is the encoding of one |
| `ZipRecords.CentralDirectoryIff` | crates/peryx-archive/src/zip_range.rs:105-124 | the reader finds a directory if and only if the tail ends with an encoded end record within the span limits and no later signature starts at least 22 bytes before the end; then it is that record's |
| `ZipRecords.EndRecovered` | crates/peryx-archive/src/zip_range.rs:105-124 | an encoded end record with no later signature is recovered, or refused by the span limits and by nothing else |
| `ZipRecords.DataStartIff` | crates/peryx-archive/src/zip_range.rs:184-216 | a local header is accepted if and only if it begins with an encoded header that agrees with the entry, a streamed member's CRC and sizes excepted; the data then starts after its extra field |
| `ZipRecords.RecordsAre` | crates/peryx-archive/src/zip_range.rs:105-216 | the span limits in numbers, and the fields a local header must share with its entry: CRC and sizes exactly when flag bit 3 is clear |
| `ZipRecords.HeaderRefused` | crates/peryx-archive/src/zip_range.rs:184-216 | why a local header is refused: short, without signature, or the first field that differs, with both values |
| `ZipRecords.RangedRead` | crates/peryx-archive/src/zip_range.rs:105-216 | from the tail of a laid-out archive the reader reaches the directory, the first entry of the name, and exactly the member's bytes |
| `ZipRecords.ArchiveRoundTrip` | crates/peryx-archive/src/zip_range.rs:105-216 | for any members that fit a ZIP32 archive, reading the written archive by ranges, from any tail that holds the end record, gives the bytes of the first member of each name |
| `ZipRecords.ArchiveMissing` | crates/peryx-archive/src/zip_range.rs:105-164 | and a name no member has is missing |
| `TrashPages.NewestFirst` | crates/peryx-core/src/lifecycle.rs:102-112 | for deletions since 1970 the 19-digit padded key makes byte order newest first |
| `TrashPages.StampedNewestFirst` | crates/peryx-driver/src/state/build.rs:348-352 | every two deletions the server's clock stamps, which reads zero before 1970, are listed with the later stamp first |
| `TrashPages.NewestFirstIff` | crates/peryx-core/src/lifecycle.rs:102-112 | what the key would do with any 64-bit time, its subtraction wrapping: byte order is newest first if and only if the earlier deletion is not before 1970 or both are and their keys differ in width the right way |
| `TrashPages.SameCursorIff` | crates/peryx-core/src/lifecycle.rs:102-112 | records without separator bytes share a cursor if and only if their time and identity agree, an absent field being empty |
| `TrashPages.NextPage` | crates/peryx-driver/src/trash.rs:221-235 | a page is the next rows in cursor order, with a cursor exactly when more remain, and the next page starts past it |
| `TrashPages.ItemIs` | crates/peryx-core/src/lifecycle.rs:80-98 | an item can be restored for thirty days from its deletion, to the end of time at most, while its bytes are retained, and is expired otherwise |
| `TrashPages.ListedIff` | crates/peryx-driver/src/trash.rs:78-91 | a listing holds a record as often as it was given if every filter names its field, its state or a deadline not before its own, and not at all otherwise |
| `TrashPages.ValidateIff` | crates/peryx-driver/src/trash.rs:57-76 | a query is refused for a limit outside 1 to 100, then a cursor that is empty or over 1024 bytes, then a repository over 512 bytes, and for nothing else |
| `TrashPages.PagesReassemble` | crates/peryx-driver/src/trash.rs:221-235 | for distinct cursors and any valid limit, following the cursor ends and yields every matching record exactly once in cursor order, unless a page hands out a cursor too long to be taken back, and then it ends in that error |
| `TrashPages.LongCursorStops` | crates/peryx-driver/src/trash.rs:57-69 | whenever the first of two records has a cursor past the bound, paging one at a time ends in an invalid-cursor error |
| `TrashPages.LongNameStops` | crates/peryx-driver/src/trash.rs:57-69 | a PyPI upload with a file name of 1024 bytes is enough |
| `TrashPages.ReassembleIff` | crates/peryx-driver/src/trash.rs:57-91 | with cursors short enough, following the cursor reassembles the listing for every limit if and only if its cursors are distinct |
| `Retention.Plan.Run` | crates/peryx-driver/src/retention.rs:158-251 | for any sequence of callbacks and any outcome, the plan's state and result are the fold of the callbacks |
| `Retention.AnyDriver` | crates/peryx-driver/src/retention.rs:158-251 | whatever the driver does, a page is reported only if it opened exactly one snapshot, first, with the expected identity, announced once; and no page passes its limit |
| `Retention.Failures` | crates/peryx-driver/src/retention.rs:212-230 | how a plan fails whatever the driver does: cancelled, stale, refused by the caller with its reason, or a driver that opened no snapshot, several, or one too late |
| `Retention.DriverDecides` | crates/peryx-driver/src/retention.rs:231-250 | with every decision taken, a driver's success is a page without a cursor and its error is reported as an error |
| `Retention.RefusedStart` | crates/peryx-driver/src/retention.rs:194-196 | a caller that refuses the snapshot is told its own reason and given no decision |
| `Retention.OnePage` | crates/peryx-driver/src/retention.rs:158-251 | with an obedient driver over an unchanged snapshot a page is the next decisions, with a cursor exactly when more remain |
| `Retention.ChainIsWhole` | crates/peryx-driver/src/retention.rs:158-251 | chaining pages of at least one decision concatenates to the whole plan from the offset on, no gap and no repeat, the last page without a cursor |
| `Retention.ZeroLimitStays` | crates/peryx-driver/src/retention.rs:203-206 | a page of limit zero hands back the offset it was given, so a chain needs a limit of at least one |
| `Retention.ChangedIsStale` | crates/peryx-driver/src/retention.rs:188-193 | a changed identity is Stale, with nothing announced and nothing emitted |
| `Retention.InterruptedPrefix` | crates/peryx-driver/src/retention.rs:207-209 | a caller that stops mid-stream has received a prefix in order and is told its own reason |
| `Retention.LostIff` | crates/peryx-driver/src/retention.rs:198-250 | for any trace and outcome that yield a page: it hands out no cursor although a decision was refused as full if and only if the driver reported success after offering more than the limit; and without a cursor it delivered everything offered if and only if no more than the limit was offered |
| `Retention.SwallowedHaltLoses` | crates/peryx-driver/src/retention.rs:231-250 | a trace of that kind: the halt of a full page swallowed, the plan looks exhausted |
| `Retention.Gates.TryEnter` | crates/peryx-driver/src/retention.rs:57-70 | admits if and only if fewer permits than the limit are live for that repository, and counts stay equal to live permits |
| `Retention.Gates.Drop` | crates/peryx-driver/src/retention.rs:74-88 | giving back a live permit never fails, and the last one leaves no entry |
| `Percent.Buffer.PushComponent` | crates/peryx-core/src/url_encoding.rs:1-8 | appends the component encoding |
| `Percent.Buffer.PushPath` | crates/peryx-core/src/url_encoding.rs:10-18 | appends the path encoding, slashes kept |
| `Percent.DecodePercent` | crates/peryx-core/src/path.rs:172-193 | the loop computes the reference decoding; malformed escapes and octets that are not UTF-8 are rejected |
| `Percent.CanonicalizePath` | crates/peryx-core/src/path.rs:71-95 | the loop from escape to escape computes the reference canonical form |
| `Percent.RoundTrip` | crates/peryx-core/src/path.rs:172-193 | decoding either encoding of any string returns the string |
| `Percent.EncodedIsCanonical` | crates/peryx-core/src/url_encoding.rs:1-25 | canonicalizing leaves either encoder's output unchanged |
| `Percent.WrittenIs` | crates/peryx-core/src/url_encoding.rs:1-25 | an encoder writes a byte of section 2.3 of RFC 3986 as it is, a path encoder a slash too, and any other byte as a percent sign and two upper-case digits |
| `Percent.AcceptedKeepsMeaning` | crates/peryx-core/src/path.rs:63-95 | for every path the decoder accepts, canonicalizing keeps the decoded value and the slashes and is idempotent |
| `Percent.SlashesKept` | crates/peryx-core/src/path.rs:63-95 | canonicalizing keeps the literal slashes of every path, malformed ones included |
| `Percent.IdempotentIff` | crates/peryx-core/src/path.rs:71-95 | canonicalizing is idempotent on a path if and only if no stray percent sign comes to stand before two digits that spell an unreserved octet |
| `Percent.CanonicalIff` | crates/peryx-core/src/path.rs:71-95 | a path is left unchanged if and only if no percent sign of it begins the escape of an unreserved character |
| `Percent.NoneLeftIff` | crates/peryx-core/src/path.rs:71-95 | canonicalizing leaves no such escape behind if and only if no stray percent sign comes to stand before one |
| `Percent.CanonDenotes` | crates/peryx-core/src/path.rs:63-95 | the octets the canonical form denotes, told from the path: a stray percent sign is read with the two digits it comes to stand before |
| `Percent.MeaningKeptIff` | crates/peryx-core/src/path.rs:63-95 | canonicalizing changes the octets a path denotes if and only if the path is malformed and every stray percent sign in it comes to stand before two digits |
| `Percent.TurnsValidIff` | crates/peryx-core/src/path.rs:63-95 | a string the decoder rejects becomes one it accepts if and only if, besides, the octets so read are UTF-8 |
| `Percent.MalformedMayTurnValid` | crates/peryx-core/src/path.rs:63-95 | `%%34%31` is rejected, becomes `%41`, which decodes and becomes `A` |
| `Percent.DecodeStrictlyIff` | crates/peryx-core/src/path.rs:172-198 | the decoder departs from section 2.1 of RFC 3986 if and only if it accepts the path and some escape in it has a plus sign for its first digit; whatever the RFC accepts decodes the same |
| `Percent.CanonIsStrict` | crates/peryx-core/src/path.rs:71-95 | the canonicalizer agrees with the RFC's escapes on every path |
| `Percent.PlusIsADigit` | crates/peryx-core/src/path.rs:195-198 | `%+5` decodes to the octet 5, which the strict decoder rejects |

## Left out

- HTTP handlers, routing, browse and discovery views, OpenAPI, authentication back ends and metrics: no hard invariant, or foreign libraries.
- Storage transactions, the moka cache, tokio semaphores and broadcast channels: modelled as atomic steps on maps, a map that may lose any entry, counters and one-shot channels.
- Memory orderings weaker than sequential consistency: the revocation flag's acquire and release operations are atomic steps in one total order.
- Reasons, actors, revisions and journal entries of revocation rows: a reason conflict is the failed-commit step.
- Key strings of the OCI store: rows are keyed by index, repository and tag or digest; tag freshness, blob membership, referrers, placements, webhooks and the encodings of stored values are not modelled.
- OciJournal.JournalRebuilds: compares tags and trash up to the deletion evidence, which the journal does not carry; blob mounts and unmounts are not modelled.
- The unguarded tag primitives `put_tag` and `delete_tag`: outside the transitions, they break the trash invariants by design.
- The concurrency within a level of the mirror walk, and outcomes that change during a run: each digest is fetched at most once, and its rows and children are a function of it.
- The wrap-around of the token cache's use counter after 2^64 operations.
- The deadline's arithmetic outside the times of `ReceivedTimesFit` and `ArithmeticFitsIff`, where it would overflow.
- The token exchange itself, realm trust, redirects and credential refresh: an exchange issues any token or fails, under any identity of the key's provider.
- Challenge.UnescapeQuoted, Challenge.AuthValue: text is characters; the source's unescaping path reads bytes, which is the same for the visible ASCII that reading the header value as a string lets through, and not for other text.
- The scan for a Bearer challenge among several and the choice between header values (`parse_bearer`, `next_comma`).
- Rate-limit buckets evicted by cache capacity, which lose their count, and charges out of clock order by a window or more.
- Addresses, forwarded headers and the classification of routes.
- Admission.IndexBounds: the counts of one instant; `SnapshotBounds` says what remains of them when a snapshot reads the semaphores one after the other.
- Denial counters of upstream limits, and caps above the semaphore's maximum, for which building the gate panics.
- Archive listing, tar and gzip streams, and the inspection of nested archives.
- DEFLATE and CRC-32 decoding of a ZIP member, and the ranged HTTP reads that feed the parser.
- The panic of a build with overflow checks on deletion times before 1970: the sort key wraps, as the release profile has it.
- Collecting trash records from the drivers, and the inspect route.
- The base64 and JSON encoding of a retention cursor, the export stream and the evaluation of policies.
- Route and segment validators, and artifact URLs.
