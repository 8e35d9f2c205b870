# Gala publication: verified models

Dafny models of how the publication adapters move one frozen file set, a generation, to a
destination, and proofs about them. `dafny verify dfyconfig.toml` checks everything.

The three destinations share files, digests and fences, so the models share modules:

- **Foundations.** `Wrappers`, `Utf16` (JavaScript texts, their order, stable sorting),
  `OrderedMap` (insertion-ordered maps), `Json` (the RFC 8259 grammar, the parser and
  `JSON.stringify`), `Utf8`, `Digest` (domain-separated digests and the artifact digest),
  `GenerationFence`, `Marker`.
- **Codecs.** `CanonicalJson` and `CanonicalMinimal` (RFC 8785, sections 3.2.2 and 3.2.3), `DuplicateNames` (the
  stack scanner for repeated member names), `Frame` (length-prefixed frames), `Ustar`,
  `Carrier`, `CarrierLayout` and `CarrierWalk` (section 10.1.1 of IEEE Std 1003.1-1988),
  `StageToken` (section 5 of RFC 4648), `Redaction`.
- **Local-directory store.** `LocalStore` reads each lifecycle call as a plan of filesystem
  steps over a disk; `LocalAnswers` says what each call answers and leaves; `LocalDirectory` is the adapter as an object that may die before any
  step, proved to follow its plans; `LocalSafety`, `LocalRuns`, `LocalExists`,
  `LocalHistory`, `LocalTorn` and `LocalChecked` are the results over whole runs.
- **Pages.** `PagesPolling` (the two budgeted loops), `GapProof` (the attempt-gap proof),
  `PagesActivation` (staging, the integrity check, everything before the create),
  `PagesObserve` (public observation).
- **Spaces.** `SpacesMarker`, `SpacesListing` (continuation tokens), `SpacesActivation`
  (replace in place, pointer last), `SpacesRace` (interleaved activations), `Multipart`.

Code that changes state step by step is a class or a loop proved against a specification
function; the theorems are about that function. Providers, the clock and the process's death
are inputs: a provider is any function from call number to answer, and a process gets any
number of steps before it stops. SHA-256 is a parameter; collision-freedom is assumed only
where a lemma says so.

## What the proofs say about the code

- The store's guarantee that `current` serves what was committed is not unconditional. When
  a release directory already exists, `activate` checks the digest of the *stage* directory
  and then serves the release (`packages/adapter-local-directory/src/index.js:402-438`), so a
  release half removed by a cleanup that died can be served after a complete, digest-checked
  activation. `LocalTorn.DigestCheckedActivationServesTorn` is that run.
  `LocalChecked.ServedExactly` is the exact condition, in terms of the disk alone: no call
  swaps in a release it found on disk whose marker does not carry the digest of its own
  files, the comparison `observe` makes; `LocalChecked.CheckedAlwaysServes` is the guarantee
  for a caller who looks first.
- `carrier.js` describes its fields as leaving room for a terminating NUL, yet a size of
  twelve octal digits fills its field and is accepted: the NUL is there exactly below 8 GiB
  (`CarrierLayout.SizeTerminated`, `CarrierLayout.EightGibibytes`).
- `carrier.js` measures paths in UTF-8 bytes, writes them one byte per code unit and reads
  them as UTF-8, so the round trip it promises holds exactly for paths of ASCII and U+FFFD
  (`Carrier.CarrierRoundTrip`, `CarrierLayout.AccentLost`).
- `decodeCarrier` takes negative sizes. From -511 to -1 the file is empty and reading goes
  on; from -512 down the loop steps back, and it ends exactly when it never comes back to an
  offset (`CarrierWalk.EndsExactly`). Some buffers it reads for ever, some it leaves by a
  step before the first byte (`CarrierWalk.BackwardHeaders`).
- A gap proof whose `runId` is a JSON number is accepted although the builder always writes
  a string: an accepted record is the builder's exactly when its `runId` is a string
  (`GapProof.AcceptedIsBuiltExactlyForStrings`, `GapProof.NumericRunIdAccepted`).
- The Spaces marker is validated only after the served root was replaced, so an invalid one
  leaves the new files under the old pointer (`SpacesActivation.ServedBucket.Activate`,
  `SpacesActivation.RootReplaced`).
- A truncated Spaces listing page without a token ends the listing early; the bucket then
  serves exactly the new set if and only if the listing named every superseded object
  (`SpacesActivation.ServesExactlyWhenListed`).

## Model

| member | source | states |
|---|---|---|
| LocalRuns.ServedIsCommitted | packages/adapter-local-directory/src/index.js:229-463 | Over every run of stage, activate, cleanup and rollback calls from an empty root, each stopped before any filesystem step, `current` is absent or names a release holding exactly the files it had when it was renamed out of staging, provided no call activates a release that an unfinished removal has damaged |
| LocalRuns.CallKeepsServed | packages/adapter-local-directory/src/index.js:369-737 | One call of any kind, stopped anywhere, keeps the store invariant and what is served |
| LocalChecked.ServedExactly | packages/adapter-local-directory/src/index.js:369-463 | The exact condition over every run from an empty root, every call stopped anywhere, for a collision-free hash and stages committed whole: what is served is always what was committed if and only if no call swaps in a release it found on disk whose marker does not carry the digest of its own files |
| LocalChecked.CallServesExactly | packages/adapter-local-directory/src/index.js:369-463 | One call of any kind, stopped anywhere: what is served afterwards is what was committed exactly when it did not swap in a release it found that was not self-consistent |
| LocalChecked.ActivationServesExactly | packages/adapter-local-directory/src/index.js:411-438 | A completed activation that swapped serves what was committed exactly when looking at the release before the call, marker against digest as `observe` does, would have passed |
| LocalChecked.CheckedAlwaysServes | packages/adapter-local-directory/src/index.js:411-438 | With that look before every call what is served is always what was committed; a retry after a death between rename and swap passes it |
| LocalChecked.IntactExactly | packages/adapter-local-directory/src/index.js:516-565 | A release holds exactly its committed files if and only if its marker carries the digest of its own files |
| LocalChecked.RetainedPass | packages/adapter-local-directory/src/index.js:434-463 | Every retained and every served release passes that look |
| LocalChecked.ActivationCommitsWhole | packages/adapter-local-directory/src/index.js:402-425 | An activation renames a self-consistent stage when the stage is one, or when its marker carries the digest the activation demands |
| LocalChecked.StageIsSelfConsistent | packages/adapter-local-directory/src/index.js:229-300 | A stage of distinct payload files under their own digest is self-consistent |
| LocalChecked.RollbackCommitsWhole | packages/adapter-local-directory/src/index.js:697-737 | A rollback with an absent stage directory renames a self-consistent copy |
| LocalRuns.ServedWhenChecked | packages/adapter-local-directory/src/index.js:411-438 | With nothing assumed of the hash: the guarantee holds when, before each activation or rollback, the wanted release is absent, listed in the history or already current |
| LocalRuns.ServedWhenRemovalsAreWhole | packages/adapter-local-directory/src/fs-safety.js:279-299 | The same guarantee with no proviso when every call that unlinks a file of a release has removed that release by its end |
| LocalTorn.DigestCheckedActivationServesTorn | packages/adapter-local-directory/src/index.js:402-463 | The concrete run that makes the proviso necessary: a cut-short cleanup, a complete restage and a complete digest-checked activation that serves less than was committed |
| LocalExists.AlwaysSound | packages/adapter-local-directory/src/index.js:369-737 | In every state reachable by any calls, each stopped anywhere, with no proviso: `current` is absent or names an existing release, and every generation of the history has its release on disk |
| LocalExists.FreshActivationLeavesHistory | packages/adapter-local-directory/src/index.js:434-496 | After a completed fresh activation the releases on disk are exactly the history ids, the new one first and served, with no proviso |
| LocalExists.AlwaysFenced | packages/adapter-local-directory/src/index.js:369-737 | Over any calls, each stopped anywhere: the pointer leaves a generation only for an activation whose fence named that generation, or for a rollback that found it current |
| LocalAnswers.ActivateAnswers | packages/adapter-local-directory/src/index.js:369-463 | An activation takes steps exactly when something else is current, the fence names it, the staged files digest as expected and there is a release or a stage; otherwise the refusal, the idempotent answer or `reconcile` that belongs to what is missing |
| LocalAnswers.ActivateLeaves | packages/adapter-local-directory/src/index.js:411-463 | What a completed activation has left: its generation current, the journal as it was, its marker's digest at the head of the history |
| LocalAnswers.CallMovesAsFenced | packages/adapter-local-directory/src/index.js:369-737 | Whatever part of one call happened, the pointer is where it was or moved as its fence allows |
| LocalAnswers.FindKeyMeans | packages/adapter-local-directory/src/index.js:229-252 | A repeated key finds the first journal entry under it |
| LocalAnswers.StageDecides | packages/adapter-local-directory/src/index.js:229-300 | Staging under a used key takes no step and is idempotent or a conflict by the recorded digest; under a new one it succeeds exactly when the marker is valid |
| LocalAnswers.StageLeaves | packages/adapter-local-directory/src/index.js:253-300 | After a fresh staging each staged path holds its last file's bytes, the marker path the marker, the journal one entry more, and nothing else has changed |
| LocalAnswers.CleanupLeaves | packages/adapter-local-directory/src/index.js:632-673 | A completed cleanup leaves every directory but the stage and a named release neither current nor retained, each as it was |
| LocalAnswers.RollbackRefuses | packages/adapter-local-directory/src/index.js:697-737 | A missing target, a key used for another digest and an invalid marker end a rollback with their refusals |
| LocalAnswers.RollbackActivates | packages/adapter-local-directory/src/index.js:697-737 | A rollback that stages swaps to its copy under the fence of what it finds current, or answers that it is current already |
| LocalRuns.ActivateDoomsOnlyRetired | packages/adapter-local-directory/src/index.js:482-496 | The sweep only ever removes release directories the new history does not hold, never the served one |
| LocalSafety.RetainKeepsMostRecent | packages/adapter-local-directory/src/history.js:53-65 | Writing one record keeps the history the first six of the deduplicated most-recent-first list |
| LocalHistory.HistoryIsMostRecent | packages/adapter-local-directory/src/history.js:53-65 | Over every run whose calls all finish, the persisted history is the first six ids of the deduplicated most-recent-first list of fresh activations |
| LocalHistory.FreshActivationRetains | packages/adapter-local-directory/src/index.js:434-496 | After a completed fresh activation of an undamaged release, the releases on disk are exactly the history ids and each holds exactly its committed files |
| LocalHistory.AlwaysDistinct | packages/adapter-local-directory/src/fs-safety.js:236-246 | In every reachable disk each directory holds each path once |
| LocalHistory.RollbackServesTarget | packages/adapter-local-directory/src/index.js:697-737 | A fresh rollback serves the target's non-marker files byte for byte under the new id, with a marker whose digest is the recomputed one, even when its own sweep removes the target |
| LocalDirectory.LocalDirectory.Stage | packages/adapter-local-directory/src/index.js:229-300 | Staging takes exactly its planned steps, or a prefix of them when it dies; a used key changes nothing and answers by the recorded digest; a fresh one leaves the files, the marker and one journal entry |
| LocalDirectory.LocalDirectory.WriteStagedFiles | packages/adapter-local-directory/src/index.js:259-268 | The file loop writes every file in input order, or stops at a prefix |
| LocalDirectory.LocalDirectory.Activate | packages/adapter-local-directory/src/index.js:369-463 | Rename, swap, history write, sweep in that order, or a prefix; the pointer moves only when the fence names what was current, that is another generation and the stage digests as expected; otherwise the disk is untouched and the answer is the refusal, idempotent replay or `reconcile` that applies |
| LocalDirectory.LocalDirectory.Sweep | packages/adapter-local-directory/src/index.js:482-496 | Removes every retired release and nothing else, whatever the listing order and wherever it stops |
| LocalDirectory.LocalDirectory.RemoveTree | packages/adapter-local-directory/src/fs-safety.js:279-299 | Removes one tree file by file in any order, touching nothing outside it, and the directory last |
| LocalDirectory.LocalDirectory.RetainAndPersist | packages/adapter-local-directory/src/history.js:53-65 | One step that makes the history the bounded move-to-front list |
| LocalDirectory.LocalDirectory.RenameIntoRelease | packages/adapter-local-directory/src/index.js:417-425 | One step that moves the stage directory to the release name |
| LocalDirectory.LocalDirectory.AtomicSymlinkSwap | packages/adapter-local-directory/src/fs-safety.js:258-267 | One step that makes the pointer name the new generation |
| LocalDirectory.LocalDirectory.CleanupStaged | packages/adapter-local-directory/src/index.js:632-673 | Removes exactly the stage directory and an abandoned release, never the active or a retained one, and says whether there was anything |
| LocalDirectory.LocalDirectory.Rollback | packages/adapter-local-directory/src/index.js:697-737 | Stages a copy of the target and activates it under the fence of what is current, as planned or a prefix of it |
| Marker.MarkerReadsBack | packages/adapter-local-directory/src/index.js:279-282 | A written generation marker parses back to its identity |
| Marker.MarkerReadable | packages/adapter-local-directory/src/index.js:439-445 | A marker is readable exactly when its text, broken sequences replaced, is JSON other than `null` |
| CanonicalJson.ParseRecovers | packages/adapter-protocol/src/digest.js:31-110 | A JSON parser recovers every printable value from its canonical text, members in sorted order |
| CanonicalMinimal.CanonicalIsShortest | packages/adapter-protocol/src/digest.js:31-110 | No well-formed JSON text of the same canonical value is shorter than the canonical text, for every printable value |
| CanonicalMinimal.EscapesPrinted | packages/adapter-protocol/src/digest.js:108-110 | Each unit of a string is printed by its short escape if it has one other than the slash's, by six units with lower-case digits if it is another control or a surrogate, and as itself otherwise |
| CanonicalMinimal.ShortEscapesRead | packages/adapter-github-pages/src/oidc.js:228-251 | The short escapes a parser reads are the eight of the grammar |
| CanonicalMinimal.HexDigitsRead | packages/adapter-github-pages/src/oidc.js:228-251 | A hexadecimal digit reads as its place in either alphabet |
| CanonicalJson.TextDecidesData | packages/adapter-protocol/src/digest.js:31-110 | Two printable values share their text exactly when they are the same data up to member order and dropped undefined members |
| CanonicalJson.InsertionOrderIgnored | packages/adapter-protocol/src/digest.js:64-76 | Insertion order never changes the text, nor whether there is one |
| CanonicalJson.RecoveredIsSame | packages/adapter-protocol/src/digest.js:31-110 | What a parser reads from a canonical text is the same data and prints the same text again |
| Digest.PreimageDecides | packages/adapter-protocol/src/digest.js:123-128 | Over a prefix-free set of domains the hashed bytes decide both the domain and the data |
| Digest.SeparatorsPrefixFree | packages/adapter-protocol/src/digest.js:112-128 | Separators ended by their only NUL or space are prefix-free |
| Digest.DigestIgnoresOrder | packages/adapter-protocol/src/digest.js:192-199 | The artifact digest does not depend on the order of the files |
| Digest.DigestDecidesFiles | packages/adapter-protocol/src/digest.js:168-199 | With a collision-free hash two file sets share a digest exactly when they hold the same paths and bytes |
| GenerationFence.FenceForPins | packages/adapter-protocol/src/generation-fence.js:63-111 | The fence built for an observation agrees with that observation and with no other |
| GenerationFence.EveryFenceFences | packages/adapter-protocol/src/generation-fence.js:63-97 | No accepted fence value is unfenced: each agrees with exactly one observation |
| GenerationFence.FenceReads | packages/adapter-protocol/src/generation-fence.js:63-97 | A fence is read exactly when its value is the sentinel or a generation id, and agrees exactly with what that value names |
| DuplicateNames.ScanDecides | packages/adapter-github-pages/src/oidc.js:166-251 | On every JSON text, any white space, nesting and escapes, the scanner refuses exactly when some object at some depth repeats a decoded name, and never for another reason |
| DuplicateNames.ScanValue | packages/adapter-github-pages/src/oidc.js:166-219 | Over one value at any depth the scope and kind stacks come back exactly as they were, or the scan stops at a repeat inside it |
| DuplicateNames.AssertNoDuplicateKeys | packages/adapter-github-pages/src/oidc.js:166-219 | The loop over the mutable stacks computes that recursive scan on every text, JSON or not |
| DuplicateNames.ReadJsonString | packages/adapter-github-pages/src/oidc.js:228-251 | The literal reader finds the closing quote past escape pairs and the decoded contents, or refuses |
| DuplicateNames.ParseDuplicateKeyFreeJsonObject | packages/adapter-github-pages/src/oidc.js:144-157 | Accepts exactly the texts that are one JSON object without a repeated name anywhere, and returns that object |
| Frame.FrameRoundTrip | packages/adapter-protocol/src/frame.js:44-163 | A frame followed by any bytes decodes to its message and leaves exactly those bytes |
| Frame.PrefixBigEndian | packages/adapter-protocol/src/frame.js:44-71 | Prefixes order as their lengths do, most significant byte first |
| Frame.StreamRoundTrip | packages/adapter-protocol/src/frame.js:172-182 | Concatenated frames decode to exactly their messages before whatever the stream continues with |
| Frame.DecodeFramesRecovers | packages/adapter-protocol/src/frame.js:172-182 | Decoding concatenated frames gives exactly the messages |
| Frame.CutFrameRefused | packages/adapter-protocol/src/frame.js:87-163 | A buffer that ends inside its first frame is refused as truncated |
| Frame.CutStreamRefused | packages/adapter-protocol/src/frame.js:172-182 | A stream cut anywhere inside its last frame is refused however many frames came before |
| Frame.EncodeFrame | packages/adapter-protocol/src/frame.js:44-71 | The prefix buffer and the payload, or the refusal of an oversized message |
| Frame.DecodeFrame | packages/adapter-protocol/src/frame.js:87-163 | Each decoded frame consumes at least five bytes of the buffer and its payload is within the ceiling |
| Frame.FrameAnswers | packages/adapter-protocol/src/frame.js:87-163 | Which refusal meets which buffer: too short, an empty or oversized declaration, a cut payload, bytes that are not UTF-8 |
| Frame.MarkDropped | packages/adapter-protocol/src/frame.js:87-163 | A byte-order mark in front of a payload does not show in its message |
| Frame.DecodeFrames | packages/adapter-protocol/src/frame.js:172-182 | The loop over the remaining bytes terminates and computes the recursive decoding |
| Carrier.CarrierRoundTrip | packages/adapter-github-pages/src/carrier.js:170-260 | For every encodable file set: the carrier decodes to exactly the files in path order, empty files and zero blocks included, if and only if every path is made of ASCII and U+FFFD |
| Carrier.CarrierReads | packages/adapter-github-pages/src/carrier.js:170-260 | Whatever the paths, a carrier reads as its files in path order, byte for byte, each path as its header gives it back |
| CarrierLayout.AccentLost | packages/adapter-github-pages/src/carrier.js:58-95 | A path that does not come back: `é` is accepted, written as one byte and read as U+FFFD |
| CarrierWalk.WalkRoundTrip | packages/adapter-github-pages/src/carrier.js:170-260 | The decoding loop ends on every written carrier and answers the files in path order exactly when every path is ASCII and U+FFFD |
| CarrierWalk.DecodeCarrier | packages/adapter-github-pages/src/carrier.js:217-248 | On every buffer on which its loop ends, over signed offsets and slices counted from the end, the decoder answers what the walk of headers found |
| CarrierWalk.EndsExactly | packages/adapter-github-pages/src/carrier.js:226-246 | The decoding loop ends if and only if it never comes back to an offset, and that shows within two turns a block and two more |
| CarrierWalk.ForwardExactly | packages/adapter-github-pages/src/carrier.js:226-246 | The loop gives what reading from front to back gives exactly when no header it reaches declares -512 or less; sizes from -511 to -1 are empty files |
| CarrierWalk.StuckForEver | packages/adapter-github-pages/src/carrier.js:233-245 | A header declaring from -512 down to -1023, once reached, is read for ever |
| CarrierWalk.BackBeforeTheBuffer | packages/adapter-github-pages/src/carrier.js:226-245 | A first header declaring from -1024 down to -1535 takes the loop just before the buffer, where it ends |
| CarrierWalk.BackwardHeaders | packages/adapter-github-pages/src/carrier.js:226-245 | Two one-header buffers: on one the loop never ends, on the other it steps back and ends all the same |
| Carrier.EncodeCarrier | packages/adapter-github-pages/src/carrier.js:170-205 | The imperative encoder computes the specified carrier |
| Carrier.OrderedAre | packages/adapter-github-pages/src/carrier.js:171-184 | What is written is exactly the files and the parent directories of files |
| CarrierLayout.EncodeSucceeds | packages/adapter-github-pages/src/carrier.js:76-205 | Encoding succeeds exactly when every file on its own is contained, representable in UTF-8 bytes and below 8^12 bytes: no derived parent directory can make it fail |
| CarrierLayout.SizeTerminated | packages/adapter-github-pages/src/carrier.js:58-66 | The size field of an accepted entry keeps its terminating NUL exactly below 8^11 bytes |
| CarrierLayout.EightGibibytes | packages/adapter-github-pages/src/carrier.js:58-66 | A file of 8 GiB is accepted, with twelve digits and no NUL |
| CarrierLayout.CarrierLength | packages/adapter-github-pages/src/carrier.js:185-205 | The length is 512 times the header and body blocks of the entries plus two |
| CarrierLayout.ParentsFirst | packages/adapter-github-pages/src/carrier.js:171-190 | Every parent directory of every entry is written, and before it |
| CarrierLayout.CarrierIgnoresOrder | packages/adapter-github-pages/src/carrier.js:170-205 | The bytes do not depend on the order the files come in |
| Ustar.HeaderReads | packages/adapter-github-pages/src/carrier.js:136-160 | Every variable field of a written header reads back up to its first NUL and no header is a zero block |
| Ustar.FixedFields | packages/adapter-github-pages/src/carrier.js:136-160 | The mode, owner, time, magic and owner-name fields and every gap hold their fixed bytes |
| Ustar.ChecksumVerifies | packages/adapter-github-pages/src/carrier.js:150-159 | The stored checksum is six octal digits spelling the sum of the header with spaces in their place |
| Ustar.SizeReads | packages/adapter-github-pages/src/carrier.js:233-236 | A size field reads as the octal number its digits spell, past white space and under its sign, as zero when blank, and as no number otherwise |
| Ustar.BuildHeaderBlock | packages/adapter-github-pages/src/carrier.js:136-160 | The in-place field writes and the checksum accumulator produce exactly the specified block, or the specified refusal |
| Ustar.SplitUstarPath | packages/adapter-github-pages/src/carrier.js:76-95 | Finds the shortest prefix whose cut fits both fields in UTF-8 bytes, or refuses when none does |
| Ustar.SplitPathMeans | packages/adapter-github-pages/src/carrier.js:76-95 | A path splits exactly when it fits the name field or some slash cuts it to fit, and the parts rejoin to the path |
| Utf8.LossyLength | packages/adapter-github-pages/src/carrier.js:256-260 | Reading a field never lengthens it, and keeps its length only where every byte was read on its own |
| Utf8.LossyExtendsStrict | packages/adapter-github-pages/src/carrier.js:256-260 | On what strict UTF-8 decoding accepts, the lossy reading is the same |
| Ustar.WriteField | packages/adapter-github-pages/src/carrier.js:58-66 | Copies a value into its field and changes no other byte, or refuses an overlong one |
| PagesActivation.NeverMismatches | packages/adapter-github-pages/src/index.js:771-787 | A carrier staged from a file set with distinct paths of ASCII and U+FFFD never fails the integrity check against that set's protocol digest, in whatever order the files were digested |
| PagesActivation.StagedDigest | packages/adapter-github-pages/src/artifact-projection.js:63-85 | Digesting the decoded carrier without its marker is the protocol digest of the staged files |
| PagesActivation.IntegrityCheckDecides | packages/adapter-github-pages/src/index.js:771-787 | With a collision-free hash the check accepts a carrier exactly when its payload is the digested file set, byte for byte |
| PagesActivation.CreatesExactlyWhen | packages/adapter-github-pages/src/index.js:656-808 | A deployment is created exactly when the call is admitted, the fence names what is served, that is not the wanted generation, the stage is there and its carrier digests to what the caller expects, the head commit is a build version, and in recovery mode the last prior read said terminal failure; it is of that stage at that commit |
| PagesActivation.BeginAnswers | packages/adapter-github-pages/src/index.js:685-799 | Each ending of an admitted activation up to the create: prior success, undecided prior, already served, `reconcile` on a fence naming something else, missing stage, mismatching or unreadable carrier, bad head commit |
| PagesActivation.AdmissionAnswers | packages/adapter-github-pages/src/index.js:656-704 | Which refusal meets which inadmissible input, in the order of the checks |
| PagesActivation.StagesExactlyWhen | packages/adapter-github-pages/src/index.js:474-511 | A fresh stage succeeds exactly when the marker is valid, the carrier fits and the publisher agrees; each refusal exactly otherwise |
| PagesActivation.FindByKeyMeans | packages/adapter-github-pages/src/index.js:453-473 | A repeated key finds the first stage under it |
| PagesActivation.PagesAdapter.Stage | packages/adapter-github-pages/src/index.js:449-543 | Idempotent replay, conflict, refusal or a new stage record, with the whole new stage map; the map keeps only carriers encoded from their files |
| PagesActivation.PagesAdapter.Clear | packages/adapter-github-pages/src/index.js:656-808 | Everything before the create: the answer or the cleared stage, the provider calls made, and the only way the activation map changes |
| PagesActivation.PagesAdapter.Activate | packages/adapter-github-pages/src/index.js:656-853 | At most one create, made exactly when that condition holds, then polling; the in-flight and activation maps after every ending |
| PagesPolling.ResolvePriorTruthful | packages/adapter-github-pages/src/recovery.js:642-776 | For every sequence of answers: the exact calls, waits within the budget, one cancel exactly when the first read was temporary or 404, an answer exactly when neither the last read nor a called-for cancel threw, success and terminal failure exactly when the last read said so, the prior status the last one there was |
| PagesPolling.TruthfulDecides | packages/adapter-github-pages/src/recovery.js:642-776 | Only one call satisfies that: the provider's answers decide what is done and answered |
| PagesPolling.RecoveryBudget | packages/adapter-github-pages/src/recovery.js:698-725 | At 300 seconds: at most 13 reads and 280 seconds of waiting |
| PagesPolling.PollDeploymentBounded | packages/adapter-github-pages/src/deployment.js:272-324 | For every sequence of answers: the exact calls, waits within the budget, the answer is the last read's, every earlier read temporary, the unpartitioned failure never happens |
| PagesPolling.BoundedDecides | packages/adapter-github-pages/src/deployment.js:272-324 | Only one polling satisfies that |
| PagesPolling.ActivationBudget | packages/adapter-github-pages/src/deployment.js:272-324 | At 1500 seconds: at most 53 reads and 1480 seconds, both reached by a provider that never settles |
| PagesPolling.BudgetWaits | packages/adapter-github-pages/src/constants.js:83-92 | The schedule fits 52 waits in 1500 seconds and 12 in 300 |
| PagesPolling.StatusesPartitioned | packages/adapter-github-pages/src/constants.js:40-80 | The twelve accepted statuses are the temporary, terminal-failure and success ones, without overlap |
| PagesPolling.Provider.ResolvePriorAttempt | packages/adapter-github-pages/src/recovery.js:642-776 | The loop makes exactly the specified calls in the specified order and returns the specified observation |
| PagesPolling.Provider.PollDeployment | packages/adapter-github-pages/src/deployment.js:272-324 | The loop makes exactly the specified calls and returns the specified ending |
| GapProof.AcceptsExactlySpelled | packages/adapter-github-pages/src/recovery.js:295-385 | Validation accepts a record exactly when it is, as JSON data, the complete proof for the fence it returns with the run identifier spelled as the record spells it: the six members, one tombstone per strictly intervening attempt in order, every digest |
| GapProof.BuiltAccepted | packages/adapter-github-pages/src/recovery.js:275-385 | What the builder writes is accepted, for every pair of coordinates and run identifier it takes |
| GapProof.SpelledAccepted | packages/adapter-github-pages/src/recovery.js:295-385 | So is the same proof with the run identifier spelled as a number |
| GapProof.AcceptedIsBuiltExactlyForStrings | packages/adapter-github-pages/src/recovery.js:275-385 | An accepted record is the builder's data if and only if its run identifier is a string |
| GapProof.NumericRunIdAccepted | packages/adapter-github-pages/src/recovery.js:295-385 | Run 7 with attempts 1 and 2 and a numeric identifier: accepted, and not what the builder writes |
| GapProof.BuildRunAttemptGapProof | packages/adapter-github-pages/src/recovery.js:275-287 | The builder writes exactly that proof, the run identifier always a string, or refuses the coordinates |
| GapProof.RowsChecked | packages/adapter-github-pages/src/recovery.js:356-373 | Comparing canonical texts row by row accepts exactly the expected tombstones as data |
| GapProof.DigestAgrees | packages/adapter-github-pages/src/recovery.js:256-261 | With the other members built, the recomputed proof digest is the built one |
| GapProof.BuildInterveningAttempts | packages/adapter-github-pages/src/recovery.js:206-247 | The loop yields one tombstone per attempt strictly between the coordinates, in order, and refuses exactly the coordinates out of bounds |
| PagesObserve.Observer.Observe | packages/adapter-github-pages/src/index.js:876-923 | For every sequence of public reads: each wait is the smaller of the doubling schedule and what is left until the latest deadline heard, by naps or clock; total sleep at most 960 seconds; `verified` only when the latest completed reads of the marker and of every staged route match and the staged digest is the expected one; a site of up to fifty routes was confirmed first after a retry; a call that ends unverified had no last pass from whose start on the origin served what was staged, unless a flawed marker had matched before it; one that gives up while retrying was worth it had nothing left to wait |
| PagesObserve.DeadlineValues | packages/adapter-github-pages/src/index.js:943-949 | Ten minutes when nothing is declared, the declared lifetime up to fifteen, and a minute over |
| PagesObserve.Observer.ObserveOnce | packages/adapter-github-pages/src/index.js:1101-1379 | One pass: when every read from its start on brings what was staged it verifies; a verified pass that made the confirmation has read the marker and every route in that same pass |
| PagesObserve.Observer.ReadPass | packages/adapter-github-pages/src/index.js:1101-1276 | Which reads a pass makes: the marker unless it matches, then every unmatched route on the first pass and the rotating sample later, in order |
| PagesObserve.Observer.Sample | packages/adapter-github-pages/src/index.js:1218-1231 | Twenty unmatched routes from the rotating cursor, or all of them |
| PagesObserve.Observer.ReadMarker | packages/adapter-github-pages/src/index.js:1123-1150 | One marker read and what it leaves in the progress |
| PagesObserve.Observer.ReadRoute | packages/adapter-github-pages/src/index.js:1166-1213 | One route read moves only its own route between the maps |
| PagesObserve.Observer.Reconfirm | packages/adapter-github-pages/src/index.js:1252-1275 | Before success every route matched by an earlier pass, and the marker, are read again |
| PagesObserve.Observer.Judge | packages/adapter-github-pages/src/index.js:1278-1379 | `verified` exactly when no redirect, marker and every route match, no read failed and the digest agrees; `retryable` exactly when no redirect, the generation was staged here, something still disagrees and fewer than three passes in a row failed with one code; every finding about a route is what its last completed read said |
| PagesObserve.TracksDisjoint | packages/adapter-github-pages/src/index.js:1191-1212 | The three maps are pairwise disjoint and hold exactly the routes that were read |
| PagesObserve.AllMatched | packages/adapter-github-pages/src/index.js:1334-1345 | When every distinct route matches, the maps hold exactly the staged entries and digest to the staged digest |
| PagesObserve.StagedRecordsTogether | packages/adapter-github-pages/src/index.js:516-523 | What staging records digests to the protocol digest of the files |
| SpacesActivation.ServedBucket.Activate | packages/adapter-do-spaces/src/index.js:624-794 | The whole call against its only-writer bucket: an object changes only when something else is served, the fence names it, the files digest as expected and an identity is at hand, and otherwise the answer is the refusal that applies; after an invalid marker or a refused pointer write the new files are there under the old pointer; before the pointer write every object is an old or a new one with its bytes; after it the bucket holds the new files and the new marker and lacks the superseded keys the listing named |
| SpacesActivation.EarlyAnswers | packages/adapter-do-spaces/src/index.js:624-693 | The call ends before the served bucket exactly when one of those conditions fails, with the answer that belongs to it |
| SpacesActivation.PointerSays | packages/adapter-do-spaces/src/index.js:658-676 | The marker written: the wanted generation, the given identity before the remembered one, the files' own digest only when neither names one |
| SpacesActivation.DigestsPayload | packages/adapter-do-spaces/src/artifact-projection.js:27-31 | The digest compared is the protocol's over paths and bytes, and a marker among the files does not show in it |
| SpacesActivation.ServedBucket.ReplaceRoot | packages/adapter-do-spaces/src/index.js:702-732 | Every new file is written before anything is deleted, then exactly the superseded keys the listing named go, for any stopping point |
| SpacesActivation.RootReplaced | packages/adapter-do-spaces/src/index.js:702-732 | After the root steps the bucket is the new set beside the old pointer and whatever superseded object the listing did not name |
| SpacesActivation.ServesExactlyWhenListed | packages/adapter-do-spaces/src/index.js:702-732 | It serves exactly the new set if and only if the listing named every superseded object |
| SpacesActivation.CompleteServesExactly | packages/adapter-do-spaces/src/index.js:702-732 | A complete listing names them all |
| SpacesActivation.EveryPrefixOldOrNew | packages/adapter-do-spaces/src/index.js:702-732 | At every prefix of the root steps each object is old or new, only superseded ones are gone and the pointer is untouched |
| SpacesActivation.PointerLast | packages/adapter-do-spaces/src/index.js:733-757 | The pointer write completes the exchange: the new marker above what the root steps left |
| SpacesActivation.ConditionPins | packages/adapter-do-spaces/src/index.js:746-749 | A condition taken from a truthful head accepts exactly the pointers with that ETag, so a sole writer is never refused |
| SpacesListing.ListPrefix | packages/adapter-do-spaces/src/s3.js:513-562 | Following the provider's continuation tokens collects the pages visited in order, each once, and stops at a page that is not truncated or carries no token |
| SpacesListing.PagesFollow | packages/adapter-do-spaces/src/s3.js:513-562 | Every page but the last is truncated and its token brings the next; the last is not truncated or carries no token |
| SpacesListing.StopsWithoutToken | packages/adapter-do-spaces/src/s3.js:513-562 | A truncated page without a token ends the listing there, with what came before it |
| SpacesRace.AtMostOneActivates | packages/adapter-do-spaces/src/index.js:694-793 | Any number of activations with different ids, interleaved in any order after all took the pointer's ETag, each remembering what it had read as served: at most one returns `activate`, its marker stays in place, and every other that returned said `reconcile` with the destination changed |
| SpacesRace.LaterWritesRefused | packages/adapter-do-spaces/src/index.js:746-774 | Once one pointer write is accepted every later one is refused with `reconcile` and the destination changed |
| SpacesRace.FirstWriterCanWin | packages/adapter-do-spaces/src/index.js:746-793 | The first pointer write is accepted, and its activation returns `activate` when the confirming read names it |
| SpacesMarker.MarkerBytesDecide | packages/adapter-do-spaces/src/marker.js:49-71 | Markers of different identities are different bytes |
| SpacesMarker.SpacesMarkerReads | packages/adapter-do-spaces/src/marker.js:49-71 | A written Spaces marker parses back to its five members |
| Multipart.SlicesCover | packages/adapter-do-spaces/src/staging.js:277-285 | The slices concatenate to the bytes, all but the last are exactly 5242880 bytes, none is empty, and there are as many as the ceiling asks |
| Multipart.PartsAtTheLimit | packages/adapter-do-spaces/src/capability.js:245 | At the declared maximum file size there are exactly 1024 parts, below it no more |
| Multipart.UploadMultipart | packages/adapter-do-spaces/src/staging.js:256-338 | Parts numbered from one in order, completion listing them in order with their ETags; any failure after the create issues one abort for the same upload and keeps that failure |
| Multipart.CompletedIsWhole | packages/adapter-do-spaces/src/staging.js:301-319 | What the completed parts assemble to is the object's bytes |
| Multipart.PutObject | packages/adapter-do-spaces/src/staging.js:224-240 | One put up to the ceiling, otherwise the calls of a multipart upload: completed with exactly the bytes, or stopped at the first failure with one abort after the create, that failure kept |
| StageToken.TokenBijection | packages/adapter-do-spaces/src/staging.js:144-208 | Parsing accepts exactly the derived tokens and returns the identity each was derived from |
| StageToken.Decode64Encode64 | packages/adapter-do-spaces/src/staging.js:160-166 | Decoding base64url inverts encoding for every byte string |
| StageToken.OwnedPrefixes | packages/adapter-do-spaces/src/staging.js:122-134 | The prefixes cleanup may delete by are exactly the derivable ones |
| StageToken.PrefixesApart | packages/adapter-do-spaces/src/staging.js:144-166 | For distinct identities neither derived prefix begins with the other |
| StageToken.StagingBucket.CleanupStaged | packages/adapter-do-spaces/src/index.js:921-975 | Deletes exactly the keys under the token's own root prefix and counts the listed ones, or refuses and changes nothing |
| StageToken.CleanupLeavesOthers | packages/adapter-do-spaces/src/index.js:921-975 | No key of another operation is ever under the deleted prefix |
| Redaction.NoSecretRemains | packages/adapter-github-pages/src/redaction.js:32-41 | Whatever the order and overlap of the secrets, a scrubbed text holds none of those without a bracket that are not inside the placeholder's word |
| Redaction.BracketFreeExactly | packages/adapter-github-pages/src/redaction.js:32-41 | Among secrets without brackets the guarantee holds of exactly those not inside that word |
| Redaction.ScrubSecrets | packages/adapter-github-pages/src/redaction.js:32-41 | The reassigning loop computes the repeated split and join, skipping absent and empty secrets |
| Redaction.CollectStrings | packages/adapter-github-pages/src/redaction.js:51-69 | The accumulator gains every string value and member name at every depth, in walking order |
| Redaction.AssertFreeOfSecrets | packages/adapter-github-pages/src/redaction.js:80-93 | Accepts exactly the values that hold no secret in any string or member name |
| Redaction.ScrubbedIsAccepted | packages/adapter-github-pages/src/redaction.js:32-93 | Evidence all of whose strings were scrubbed is accepted |

## Left out

- SHA-256, schema validation and the local stage token's hash are parameters; HTTP, TLS, OIDC acquisition, signature verification and request signing are reduced to whether a call came back and with what.
- Number printing: a finite number is the token `JSON.stringify` spells it with, so printing doubles is not modelled; which `TypeError` the canonical printer throws first is not either.
- `JSON.parse` keeping the last of repeated names and moving integer-like names first is modelled where a marker is read, not where a frame's message is compared: frames are stated for parsed values that keep their members as written.
- CarrierWalk.DecodeCarrier: called on buffers on which the loop ends; on the others the source never returns. A gzip stream is refused first in both.
- LocalRuns.ServedWhenChecked: one way, and it turns away the retry after a death between rename and swap; `LocalChecked.ServedExactly` is the exact condition and admits it.
- LocalChecked.ServedExactly: a collision-free hash is assumed, and that what is renamed out of staging carries its own digest.
- LocalDirectory.LocalDirectory.RemoveTree: the refusals outside the validated root and the descent into nested directories are not modelled; a tree is its files by path.
- LocalDirectory.LocalDirectory.AtomicSymlinkSwap: the temporary sibling link a death can leave beside `current` is not modelled; nothing reads it.
- LocalRuns.ServedIsCommitted: symbolic links, directory syncing, empty directories, path-prefix conflicts, a death inside one file write and two calls at once are not modelled; there is no lock in the source, so calls come one at a time.
- LocalHistory.HistoryIsMostRecent: certification times are not in the records.
- Local `observe`, `preflight` and `inspectDestination`, and the Pages and Spaces ones: read-only reports.
- The crash-injection hooks: a call may stop before any step anyway.
- PagesObserve.Observer.Observe: time is in whole milliseconds; finding texts are tags; which stage or activation record names the routes is an input of the observer.
- PagesActivation.PagesAdapter.Activate: binding a REST context, the create request's body and the provider identity it returns are not modelled; a create either comes back or throws.
- Pages `cleanupStaged` and `rollback`: short sequences of the modelled calls.
- GapProof.AcceptsExactlySpelled: the enclosing recovery record's other members are plain format checks and are not modelled.
- SpacesActivation.ServedBucket.Activate: object metadata beyond the immutable flag, multipart steps inside one write (they change no served object before completion) and XML decoding of listed keys are not modelled; the listing sees the bucket at one moment, and any of its pages may be missing.
- Spaces `activate`: the written and superseded object counts in its answers are not modelled.
- SpacesRace.AtMostOneActivates: starts where every activation has its ETag; distinct bytes having distinct ETags and an honoured condition are assumptions.
- Multipart.UploadMultipart: the completion body is the list of parts, not its XML text; a completion that succeeded but whose answer was lost looks like a failure.
- StageToken.Decode64Encode64: characters of neither alphabet are skipped; padding in the middle of a token is not told apart from them, and such a token is refused as not canonical in either reading.
- Spaces `stage` and `rollback`: an idempotency look-up in front of writes of the kind modelled.
- Media types, website paths, capability declarations, request catalogs, workspace and CLI code: finite tables or input and output only.
