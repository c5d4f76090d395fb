# go-cask in Dafny

A verified model of the core of go-cask, a content-addressable store: its one
graph traversal and garbage collector, its envelope wire format, its ref store
with reflogs, its typed stores and integrity check, the byte-copy loops of the
backends, the CLI's flag reordering, and the viewer's operation limiter and
browser state. `dafny verify dfyconfig.toml` checks the whole project.

Digests are byte sequences, the hash an arbitrary function, a backend a finite
map from digest to bytes and write time, a ref store two maps of file contents.
The clock, the context and the failures of backends, sources and sinks are
parameters: `done(k)` is the answer of the k-th context check (`Alive(done, n)` says
the first n found it alive), `fault` the failure of a backend call or of the k-th
write, `chunks` and `takes` the sizes of partial reads and writes. The theorems hold
for all of them. A backend call that is repeated with the same argument fails the
same way each time.

| file | content |
|---|---|
| `Common.dfy`, `Texts.dfy`, `Decimals.dfy` | results, sequences, Go's text and integer helpers |
| `Digests.dfy` | digest text form |
| `Graphs.dfy` | nested depth-first search, paths, closure |
| `Reachability.dfy` | the explicit-stack walk and the reachable set |
| `Backends.dfy`, `Sweeping.dfy` | the backend and the sweep on a quiescent store |
| `ConcurrentSweep.dfy` | writers, ref updates and sweep steps interleaved |
| `Varint.dfy`, `Streams.dfy`, `Envelopes.dfy` | varints, chunked sources, the frame and its readers |
| `Reflogs.dfy`, `RefNames.dfy`, `Refs.dfy` | the reflog text, ref names, the ref store |
| `Collection.dfy` | roots, mark and sweep as one operation |
| `Stores.dfy`, `Registries.dfy` | typed stores, verification, cross-type resolution |
| `Copying.dfy` | `WriteAll`, `WriteTo`, `ReadWhole` |
| `Limiter.dfy`, `Browser.dfy`, `Flags.dfy` | the viewer's limiter and URL state, the CLI's flags |

## Where the code and what is said about it differ

- **Grace period.** A minimum age equal to the mark span plus the publication
  grace is not enough: an object created at time 0, published at the grace limit
  in the same instant the roots were read, is exactly old enough to be swept. The
  age must be strictly larger; `SafeExactly` proves this is exact, together with
  three further conditions that cannot be dropped. Sweeps must not overlap (the
  design says so, docs/specs/consistency.md:57). A write that found its digest
  stored gives no right to publish it, because the skipped write leaves the old
  write time. And no ref may be overwritten or removed while it waits to be read:
  `refs.List` reads the value files one after another (cas/refs/refs.go:269-311),
  and a ref moved meanwhile from an unread name to a read one is missed whatever
  the ages. New names may be published and refs already read may change at any
  time; leaving existing refs alone while `Roots` runs is enough.
- **Header bound.** The comment at cas/envelope.go:276-280 calls the 8192-byte
  limit large enough for two maximal fields; those need 8197 bytes, and the
  bounded read reports such a header corrupt (`BoundedHeaderOfFrame`).
- **Bucket dropping.** The comment at internal/web/limit.go:138-140 says idle
  sessions are dropped; a bucket left with one token spent never is
  (`SpentBucketIsKept`), since the drop test reads tokens as stored.
  `BucketDroppedExactly` says when one is dropped.
- **Unknown types.** The comment at cas/repo/repo.go:180-183 says a caller that skips
  unknown types can never skip an object it merely cannot read. `resolveNode` looks
  for an unknown-type error anywhere in the chain (cas/repo/repo.go:283), so an object
  is a leaf of the walk whenever the hasher's refusal, the backend's read error or
  the registered decoder's failure holds one (`MaskedExactly`,
  `WrappedUnknownTypeIsALeaf`). `Registries.Reachable` proves a returned set has only
  intact members if and only if no linked object is masked in this way. Decoders made
  by `RegisterStore` are not exempt, since `Store.Get` wraps the codec's and the
  validator's own error (cas/store.go:130, cas/store.go:286-288).
- **Help flags.** The reordering moves a flag named -h or -help without a value. If a
  flag set defines one that takes a value, `a -h x` reads as `-h a` (`HelpValueLost`);
  every list keeps its meaning if and only if none is defined so (`PreservesExactly`).
  And `-h -nope` is reported as a usage error, although the flag package would have
  shown the help text (`HelpRequestRejected`).
- **Roots.** Every valid name with the suffix ".tmp" is a valid name, which `List`
  skips as a temp file unless a ".tmp" occurred in its last segment before
  (`TempShapedName`). Such a ref is no root, and the next collection removes what
  only it names (`CollectHidden`).

## Model

| member | source | states |
|---|---|---|
| Reachability.WalkDigests | cas/reachability.go:66-114 | On every finite graph, cyclic or shared, the explicit-stack walk terminates and the visitor's calls are exactly the preorder of the nested recursive search over the reversed present roots, cut before the first digest the resolver fails on, after the first the visitor refuses, or at a cancellation. The context is found alive at the start and before every digest visited, and the first check that finds it done ends the walk. |
| Reachability.PopTop | cas/reachability.go:83-112 | One turn of the walk, after a check that found the context alive: a digest seen before is dropped, any other visited; either way the invariant holds and the measure shrinks, or the walk ended for the stated reason. |
| Reachability.VisitTop | cas/reachability.go:88-111 | A visit: the visited digest is the next one owed, its unseen references are pushed reversed, and the unvisited support or the stack shrinks. |
| Reachability.PushReferences | cas/reachability.go:104-111 | References are pushed last first, skipping absent and visited ones. |
| Reachability.PushRoots | cas/reachability.go:76-82 | Present roots are pushed in order, so they are popped in reverse. |
| Reachability.OwedVisited | cas/reachability.go:83-112 | The refinement step: what a stack owes is its top followed by what the stack after the visit owes. |
| Reachability.PreorderIsLive | cas/reachability.go:47-65 | The order lists each digest reachable by a path exactly once, and is the least closed set holding the present roots. |
| Graphs.VisitAllIsClosure | cas/reachability.go:116-121 | The nested search visits exactly what its arguments reach, without repetition, and that is the least closed set containing them. |
| Reachability.Reachable | cas/reachability.go:132-151 | A returned key set holds exactly the digests reachable from the present roots, all of them readable, and took more checks of a live context than it has members; an error names a reachable digest the lister failed on, or the check that found the context done. |
| Digests.ParseDigestExact | cas/digest.go:131-180 | A text parses to a digest if and only if it is that digest's own lowercase text. |
| Digests.TextInjective | cas/digest.go:76-87 | Hex keys identify digests. |
| Digests.TextAt | cas/digest.go:76-87 | The text gives two hex digits a byte, the high half first. |
| Digests.Unmarshal | cas/digest.go:131-152 | The shape check and decoding loop compute the inverse of the text form. |
| Digests.IsLowerHex | cas/digest.go:156-166 | Accepts exactly the non-empty runs of lowercase hex digits. |
| Sweeping.Sweep | cas/sweep.go:42-109 | A completed sweep reports the doomed digests of the initial state in the order and as often as they are listed and, unless dry, removes exactly them, after a live context check for every listed digest and every removal; a failing or cancelled one has removed only doomed digests and names a failed listing, a listed digest it could not judge, a doomed one it could not remove, or the check that found the context done; everything else is untouched; an age limit without modification times is refused. |
| Sweeping.JudgeExactly | cas/sweep.go:60-96 | The verdict on a digest: doomed when unmarked, addressable, stored and old enough and the calls that tell succeed; abort exactly for a failure that is neither an unaddressable key nor a digest just gone; else kept. |
| Common.RestrictCounts | cas/sweep.go:60-96 | What a completed sweep reports holds each doomed digest as often as the listing and nothing else. |
| Common.RestrictPositions | cas/sweep.go:60-96 | And it is a subsequence of the listing. |
| Sweeping.DoomedMeaning | cas/sweep.go:60-96 | Without faults, doomed means listed, addressable, stored, unmarked and at least the minimum age old. |
| Collection.CollectGarbage | cas/sweep.go:42-109 | Roots, then reachability, then sweep: no exit removes anything but garbage, a completed run leaves every live object and its references stored, reports the garbage it could tell (all of it when nothing fails; dry or not) in the order and as often as listed; it fails only for a cancellation, a live object that cannot be read, or a listing, verdict or removal that fails; and it completes whenever the live graph is closed and nothing fails. |
| Collection.Mark | cas/reachability.go:132-151 | The mark set is exactly what the listed refs reach in the stored graph, all of it stored; a failure is a cancellation or a live object that is missing, fails to be read, or has no readable references. |
| Collection.ReadIsLiveNow | cas/reachability.go:132-151 | What a walk through a failing backend finds is live, and if everything found could be read it is all that is live. |
| Collection.CollectHidden | cas/refs/refs.go:294-296 | An old object that only a ref with a temp-shaped name holds is removed by the next collection, and the ref still names it. |
| Collection.StepModelJudgesAlike | cas/sweep.go:60-96 | The verdict used in the concurrent model is the one the sweep computes on the store at that moment. |
| ConcurrentSweep.SafeExactly | cas/sweep.go:9-16 | In every interleaving of writes, ref updates, one-by-one root reads and sweep steps no ref ever dangles, if and only if sweeps are exclusive, no ref changes while it waits to be read as a root, only created objects are published unreferenced, and mark span plus grace is less than the minimum age. |
| ConcurrentSweep.RunKeepsInv | cas/sweep.go:42-109 | The invariant behind it, over all runs: reachable digests are stored, and marked, still to be collected by the root read, or recently created; doomed ones are neither. |
| ConcurrentSweep.ReadRefKeepsInv | cas/refs/refs.go:297-302 | Reading one value file, old or just published, loses nothing the root read must still cover. |
| ConcurrentSweep.EndRootsKeepsInv | cas/refs/refs.go:357-369 | When the last ref is read, the mark set covers everything reachable but what was created recently. |
| ConcurrentSweep.PublishKeepsInv | cas/refs/refs.go:208-232 | Publishing under the rule keeps the invariant in every phase of the sweep, the root read included. |
| ConcurrentSweep.RemoveKeepsInv | cas/sweep.go:98-107 | What the sweep removes is unreachable now and past its publication window. |
| ConcurrentSweep.ShortGraceIsUnsafe | cas/sweep.go:58-95 | A run that dangles whenever span plus grace reaches the minimum age, equality included. |
| ConcurrentSweep.OverlappingSweepsAreUnsafe | cas/sweep.go:76-78 | A run that dangles whenever another sweep may delete meanwhile. |
| ConcurrentSweep.DeduplicatedWritesAreUnsafe | cas/store.go:221-227 | A run that dangles when a skipped write counts as recent. |
| ConcurrentSweep.MovedRefsAreUnsafe | cas/refs/refs.go:269-311 | A run that dangles when refs may change while they wait to be read. |
| Limiter.AdmissionsBounded | internal/web/limit.go:81-150 | In every run by any sessions, buckets dropped and recreated included, a session is admitted in a closed window of length T at most burst + ceil(T / cooldown) times. |
| Limiter.AllowanceStep | internal/web/limit.go:81-127 | Each admission costs its session one unit of remaining allowance, and no call by anyone adds any. |
| Limiter.AdmittedExactly | internal/web/limit.go:81-103 | A session is admitted exactly when no operation runs and, with a cooldown, it finds a token; an admission takes exactly one, a refusal none, and the wait is the time to the next token or the busy retry. |
| Limiter.TokensAreSpendable | internal/web/limit.go:81-110 | A session that finds n tokens while no operation runs is admitted n times in a row, and exactly n are gone. |
| Limiter.OneAtATime | internal/web/limit.go:81-110 | In every run that pairs end with an admitted begin, at most one operation runs, and the busy flag says whether one does. |
| Limiter.RefusalIsExact | internal/web/limit.go:81-136 | An empty-bucket refusal names d with 0 < d <= cooldown; whatever else happens, retries before d are refused and one at d or later finds a token. |
| Limiter.RetryAfterSuffices | internal/web/limit.go:155-161 | The Retry-After seconds are always enough and exceed d by less than one second. |
| Limiter.RefillTwice | internal/web/limit.go:114-127 | Refilling at any moment in between loses nothing: the remainder of a period is kept. |
| Limiter.BusyRefusalIsFree | internal/web/limit.go:76-96 | A busy refusal costs nothing: over any run of other sessions, and at any time after it, the session finds exactly the tokens it would find if it had not asked, and unless its bucket is full the next one is due at the same moment. |
| Limiter.OthersDoNotMatter | internal/web/limit.go:112-150 | Whatever other sessions do, the dropping of its bucket included, a session later finds as many tokens as without them, due at the same moment. |
| Limiter.SpentBucketIsKept | internal/web/limit.go:141-150 | A bucket with a token spent is never dropped while its session stays away. |
| Limiter.BucketDroppedExactly | internal/web/limit.go:141-150 | Over any run in which its session stays away, a bucket is dropped if and only if some call finds more buckets than the threshold and this one full as stored and a cooldown old; otherwise it is unchanged. |
| Limiter.ExpensiveOps.BeginOp | internal/web/limit.go:81-103 | The method computes the transition the run theorems are about. |
| Limiter.ExpensiveOps.EndOp | internal/web/limit.go:106-110 | Releases the slot and nothing else. |
| Limiter.ExpensiveOps.BudgetLocked | internal/web/limit.go:114-127 | Returns and stores the session's bucket, created full or refilled by whole cooldowns. |
| Limiter.ExpensiveOps.SweepLocked | internal/web/limit.go:141-150 | Drops exactly the full idle buckets, only above the threshold. |
| Envelopes.EncodeEnvelope | cas/envelope.go:119-162 | Filling one pre-sized buffer at a running offset yields the frame; unversioned names are refused. |
| Envelopes.FrameRoundTrip | cas/envelope.go:144-251 | Decoding an encoded frame followed by any bytes returns exactly the codec, type and payload. |
| Envelopes.FrameInjective | cas/envelope.go:144-162 | Two frames with any trailers are equal only if all parts are. |
| Envelopes.TruncatedFrameFails | cas/envelope.go:224-251 | A prefix of a frame decodes only if it is the whole frame. |
| Envelopes.Version1Decodes | cas/envelope.go:171-222 | A version 1 frame decodes with an unspecified codec, and a legacy name reads as "@1". |
| Envelopes.PrefixYieldsType | cas/envelope.go:187-222 | The type is readable from a prefix of a frame exactly when the prefix covers the header. |
| Envelopes.RefusedExactly | cas/envelope.go:119-134 | A non-empty name lacks "@" exactly when it would not read back as itself; an empty one does not read back. |
| Envelopes.ReadersAgree | cas/envelope.go:187-222 | On every byte string the streaming reader accepts exactly what the slice reader accepts with both fields at most 4096 bytes, with the same fields and header end, and reports corrupt otherwise. |
| Envelopes.Peek | cas/envelope.go:408-479 | Under every chunking the stream reader's answer depends only on the bytes supplied, and it consumes exactly the header. |
| Envelopes.ReadPeekName | cas/envelope.go:514-533 | Reads one bounded length-prefixed field and leaves the stream right after it. |
| Envelopes.HeaderLocal | cas/envelope.go:164-186 | A header parses from a prefix if and only if the prefix covers it. |
| Envelopes.ReadHeader | cas/envelope.go:329-350 | The bounded read returns what the unbounded one returns for every header ending within 8192 bytes, and corrupt otherwise. |
| Envelopes.BoundedHeaderOfFrame | cas/envelope.go:276-285 | For frames with both fields at most 4096 bytes it succeeds exactly when the header fits; 8187 bytes of codec and type together suffice, two maximal fields do not fit. |
| Envelopes.HeaderNamesType | cas/envelope.go:329-350 | The type name and codec the bounded header read reports are those decoding the whole object reports. |
| Envelopes.OtherVersionsRefused | cas/envelope.go:187-195 | Empty input and any version byte but 1 and 2 is corrupt for both readers. |
| Envelopes.FrameBytes | cas/envelope.go:119-162 | One frame, byte by byte. |
| Varint.UvarintRoundTrip | cas/envelope.go:144-160 | Every 64-bit length reads back, whatever follows. |
| Varint.PutUvarintDigits | cas/envelope.go:144-160 | A length is written as its base-128 digits, least significant first, with the high bit on all but the last, and no more digits than needed. |
| Varint.UvarintExactly | cas/envelope.go:187-222 | A length is read from exactly the delimited runs of at most ten bytes whose digits make a 64-bit number. |
| Reflogs.TornLog | cas/refs/refs.go:445-475 | A log whose last append was cut at any byte yields every earlier entry and exactly the stated at most one more, with the torn line's time and digest. |
| Reflogs.AppendAfterTear | cas/refs/refs.go:419-475 | After later complete appends everything is recovered except the torn entry and the one fused with it, which is lost or carries a mistaken time, exactly as stated. |
| Reflogs.TornAppends | cas/refs/refs.go:419-475 | A log written through any number of crashes, each cutting its append at any byte, parses to exactly the stated entries: a complete append is fused with whatever cut ones left before it on its line, and the last line is parsed as it stands. |
| Reflogs.UntornSurvive | cas/refs/refs.go:419-475 | In such a log every complete append that does not directly follow a cut one is recovered. |
| Reflogs.LossBounded | cas/refs/refs.go:419-475 | No crash costs more than one complete append, and all together add at most one entry. |
| Reflogs.ParsePrinted | cas/refs/refs.go:419-475 | Complete lines parse back to their entries, whatever follows. |
| Reflogs.ParseLineExactly | cas/refs/refs.go:449-475 | A line is read as an entry exactly when it is an integer, the text of the new digest and the text of the old one, separated by tabs. |
| Reflogs.LineText | cas/refs/refs.go:432 | One line, character by character. |
| Reflogs.ParseAll | cas/refs/refs.go:449-475 | The line loop computes the parse the theorems are about. |
| Refs.RefStore.Set | cas/refs/refs.go:208-232 | Extends the name's history by one entry replacing its newest digest; files keep telling exactly the chained history; a cancelled context, a name that is not portable or an absent digest changes nothing. |
| Refs.RefStore.Delete | cas/refs/refs.go:239-263 | Logs a tombstone and removes the value; a name that is not set is left alone. |
| Refs.RefStore.Get | cas/refs/refs.go:180-203 | The newest entry's digest, or not found when it is absent. |
| Refs.RefStore.Log | cas/refs/refs.go:389-411 | The history newest first; a positive limit yields exactly the newest entries up to that number. |
| Refs.RefStore.Previous | cas/refs/refs.go:374-383 | The digest set by the last but one change, or not found; a cancelled context or an invalid name is reported first. |
| Refs.RefStore.Roots | cas/refs/refs.go:357-369 | Exactly the current digests of the refs whose last name segment is not temp-shaped. |
| Refs.ChangeIsTold | cas/refs/refs.go:205-263 | Logging a change with its value file keeps every name's files in agreement with its chained history. |
| Refs.ReverseInPlace | cas/refs/refs.go:404-406 | The two-index loop reverses the entries. |
| RefNames.TempShapedName | cas/internal/atomicfile/atomicfile.go:173-187 | Every valid name stays valid with the suffix ".tmp", and is then skipped as a temp file exactly when its last segment held no ".tmp" before. |
| RefNames.ValidExactly | cas/refs/refs.go:136-168 | A name is accepted if and only if it holds no control or reserved character, no part between slashes is empty or starts with a dot, none ends in ".lock", a space or a dot, and none is a device name up to its first dot. |
| RefNames.Confined | cas/refs/refs.go:136-156 | No accepted name is absolute, ends in a slash, or has an empty part or one that starts with a dot. |
| RefNames.TempFileExactly | cas/internal/atomicfile/atomicfile.go:173-187 | A file is skipped as a temp file exactly when its first ".tmp" is followed by nothing, or by a dot and an integer. |
| RefNames.LastSegmentEnds | cas/refs/refs.go:294-296 | The part of a name a listing looks at is the one after its last slash. |
| RefNames.NameStaysValid | cas/refs/refs.go:136-168 | The suffix ".tmp" breaks none of the rules for names, segment by segment. |
| RefNames.FindSuffix | cas/internal/atomicfile/atomicfile.go:173-177 | The first occurrence of the marker in an extended name is the one it had before, or the one appended. |
| Registries.Reachable | cas/repo/repo.go:261-311 | A returned set holds exactly what trails of references from the present roots lead to, unknown types as leaves; it holds the present roots and is closed; every member is intact or masked (it failed to resolve, with an unknown-type error somewhere in the chain), and all are intact if and only if none linked is masked. An error is a cancellation or names a linked object that is neither, such as a dangling, corrupt or undecodable one, and then there is no set. |
| Registries.EdgesMeaning | cas/repo/repo.go:184-287 | For every registry and digest: the walk passes exactly the intact and the masked objects, and follows exactly the references registered decoders report for intact ones. |
| Registries.DispatchByType | cas/repo/repo.go:191-208 | The type name used for dispatch is the one decoding the object's envelope reports. |
| Registries.FrameReferences | cas/repo/repo.go:184-209 | A stored frame has exactly the references the decoder registered for its type reports, none if that type is not registered, and is then reported as unknown under that type. |
| Registries.Version1References | cas/repo/repo.go:184-209 | The same for a version 1 object, whose legacy type name counts as version 1 of the type. |
| Registries.MaskedExactly | cas/repo/repo.go:184-209 | An object is masked exactly when the hasher's refusal, the header read's failure or the registered decoder's failure carries an unknown-type error. |
| Registries.WrappedUnknownTypeIsALeaf | cas/repo/repo.go:277-287 | From a masked root the walk succeeds with that root alone, although the object could not be read. |
| Registries.Registry.Register | cas/repo/repo.go:97-111 | One decoder per non-empty name; a refused registration changes nothing. |
| Stores.Store.Put | cas/store.go:182-194 | Succeeds exactly when the context is alive, the object has a stored form and the backend can write under its digest; then its bytes and the time of the call are stored under that digest, else nothing changes and the first failing step is reported. |
| Stores.Store.PutDedup | cas/store.go:213-232 | Succeeds exactly when the context is alive, the object has a stored form, the backend can look its digest up, and it is stored or can be written; an object found stored stays, write time included; a failure changes nothing. |
| Stores.Store.Encoded | cas/store.go:158-174 | Succeeds exactly for storable objects (valid, encodable, of a versioned type, hashable, with a usable digest); the bytes then decode to the object's type, the store's codec and the encoded payload. |
| Stores.Store.Delete | cas/store.go:440-445 | Succeeds exactly for a usable, addressable digest whose removal does not fail; then the object is gone, a missing one being a no-op, else nothing changes. |
| Stores.Store.StoredOpens | cas/store.go:265-318 | What a store writes it opens as the same object, for a round-tripping codec. |
| Stores.CrossStoreRead | cas/store.go:265-318 | An object another store wrote is handed back exactly when the codec tags are equal or one is empty and its payload decodes to a sound object, not nil, of the type that was written; differing tags are reported before the payload is decoded and in no other case. |
| Stores.Store.OpenExactly | cas/store.go:265-318 | For an envelope of any origin: when the object is handed back, and when a codec mismatch or an unknown type is reported; everything else is corrupt. |
| Stores.Store.LegacyRead | cas/store.go:304-318 | A version 1 object, which names no codec, is handed back by a store with any codec, exactly when its payload decodes to a sound object of its type. |
| Stores.Store.RefusedFirst | cas/store.go:158-174 | Which step is reported when several would refuse an object. |
| Stores.Store.GetRefuses | cas/store.go:265-275 | A cancelled context, an unusable key, a failed read and a missing object are reported in that order. |
| Stores.AddressIdentifies | cas/store.go:176-181 | Without collisions two objects, in any two stores, have the same address if and only if type, codec and payload are the same. |
| Stores.StoreAndFetch | cas/store.go:182-302 | Put or PutDedup, then Get, on a shared collision-free backend: when the context is alive, the object is storable and no call fails both succeed and Get returns the object; a failure of either is passed on; stored bytes still hash to their keys. |
| Stores.RunKeepsHashed | cas/backend.go:17-36 | In every run by any number of stores, stored bytes hash to their keys. |
| Stores.ContentsNeverChange | cas/backend.go:27-36 | Without collisions a key never changes its bytes, even across deletion. |
| Stores.DedupIsTransparent | cas/store.go:210-232 | Replacing every PutDedup of a run by Put leaves the same contents. |
| Stores.VerifyAll | cas/verifier.go:27-53 | A completed run lists the mismatching digests in the order and as often as they are listed, every other listed one being genuine, after two live context checks for each; an aborted one lists the mismatches met so far and says why it stopped, a failing hasher included. |
| Stores.Verify | cas/verifier.go:86-115 | No complaint exactly for a usable digest whose stored bytes are read, hashed and hash to it; a mismatch exactly when they hash to something else or a part of the check says so itself. |
| Flags.FlagsFirstPreserves | cmd/cask/flags.go:75-131 | For every argument list in which no defined -h or -help takes a separate value, help requests included: the standard parser on the reordered list makes the same assignments in the same order, with the same operands, failure or help request, as an interspersed parse; what the reordering rejects that parse does not accept. |
| Flags.PreservesExactly | cmd/cask/flags.go:101-107 | A flag set keeps the meaning of every argument list if and only if it defines neither -h nor -help with a value. |
| Flags.HelpValueLost | cmd/cask/flags.go:101-107 | With such a flag, an operand before it becomes its value. |
| Flags.HelpRequestRejected | cmd/cask/flags.go:101-111 | A help request followed by an undefined flag is rejected, although an interspersed parse asks for help. |
| Flags.TokensKept | cmd/cask/flags.go:84-123 | No token is lost or duplicated. |
| Flags.FlagsFirst | cmd/cask/flags.go:84-123 | The index loop computes the split the theorems are about. |
| Flags.TakeFlagMoves | cmd/cask/flags.go:102-121 | A kept flag spends the same arguments and sets the same value, fails the same way or asks for help, wherever it is moved. |
| Copying.WriteTo | cas/backend/context.go:69-102 | Under every chunking, limit, short write, failure and cancellation exactly the reported prefix has been written; a clean return has written everything; every read follows a live context check; it ends early only for a context found done, a last write that failed or was short, or a broken source, and is clean when none of these happens. |
| Copying.ReadWhole | cas/backend/stream.go:61-106 | For every chunking, hint and growth the bytes returned are exactly those delivered, each read after a live context check; on success, all the source holds. |
| Copying.WriteAll | cas/backend/stream.go:13-30 | Every exit has written a prefix, success everything, each write after a live context check; it ends early only for a context found done or a last write that failed or took nothing, and succeeds when neither happens. |
| Browser.Url | internal/web/browser.go:336-384 | For every state the parser can produce, parsing what is written gives it back with only the navigation marker cleared. |
| Browser.NavUrl | internal/web/browser.go:390-397 | And with the marker set. |
| Browser.ParseIsCanonical | internal/web/browser.go:102-185 | What every parsed state satisfies: clamped limit, explicit offset, canonical selection, closed sets. |
| Browser.AcceptedExactly | internal/web/browser.go:102-185 | A query is accepted exactly when no parameter is repeated, every choice is one of those offered, numbers are integers, the offset is not negative, and the selection is the canonical text of a digest the hasher can produce. |
| Browser.AcceptedBecomes | internal/web/browser.go:102-185 | What each field of the parsed state is: the parameter or its default, the query trimmed and lower-cased, a page size out of range brought into 1 to 250, the retired tab renamed. |

## Left out

- Gate, landing and worktree commands, HTTP handlers, login, CSRF, templates and preview seeding: orchestration and user interface around the modelled core.
- A backend failure that comes and goes: `fault` depends on the call and its argument, not on how often it was made.
- Concrete backends, caches, codecs, hashers, bloom filters, packs and `gitlike`: the model uses a finite map, an arbitrary hash and any codec.
- Close errors and error texts: errors are the sentinels; `Header`'s and `Verify`'s closing of a reader is not modelled.
- File-system details of refs: directories and fsync; crashes are modelled for the log only.
- `refs.Resolve`, `RegisterStore`, `LookupStore`, `ReadPayload`, `ReadAll`, `PeekVersion`, row filtering and sorting: easy members.
- The order of `refs.List` and the encoding of URL values as text: the model works on sets of refs and on `url.Values`.
- ConcurrentSweep.SafeExactly: takes a listing without duplicates, one clock shared by writers and sweep, and refs whose names the listing reports.
- Invalid UTF-8: texts are sequences of Unicode characters, and lower-casing is any function that is idempotent and maps white space and only white space to white space, as Unicode's does.
- Limiter.AdmissionsBounded: assumes a clock that never runs backwards, and unbounded integers.
