/**
 Staging a carrier and activating it on Pages: the run-scoped maps, the integrity check
 on the decoded carrier, and everything that must hold before a deployment is created.
 */
module PagesActivation {
  import opened Wrappers
  import opened Utf16
  import opened OrderedMap
  import opened Utf8
  import opened Digest
  import opened GenerationFence
  import opened Marker
  import opened Ustar
  import opened Carrier
  import opened PagesPolling

  /** `.well-known/gala-generation.json` */
  const GENERATION_MARKER_PATH: Text := [0x2E, 0x77, 0x65, 0x6C, 0x6C, 0x2D, 0x6B, 0x6E, 0x6F, 0x77, 0x6E, 0x2F, 0x67, 0x61, 0x6C, 0x61, 0x2D, 0x67, 0x65, 0x6E, 0x65, 0x72, 0x61, 0x74, 0x69, 0x6F, 0x6E, 0x2E, 0x6A, 0x73, 0x6F, 0x6E]

  const MAXIMUM_PAGES_CARRIER_BYTES := 1073741824

  /** The hash and the marker schema. */
  datatype Env = Env(sha: Sha, markerValid: Identity -> bool)

  predicate NotMarker(file: File) {
    file.key != GENERATION_MARKER_PATH
  }

  // ---- The integrity check ----

  function CarrierFiles(files: seq<File>, marker: Identity): seq<File> {
    files + [Keyed(GENERATION_MARKER_PATH, MarkerBytes(marker))]
  }

  /** `digestEntries` of the carrier's files without the marker; an error where decoding throws. */
  function CarrierDigest(sha: Sha, carrier: Bytes): Result<Text, CarrierError> {
    var files :- Decoded(carrier);
    Ok(DigestSorted(sha, Sort(Project(sha, Select(NotMarker, files)))))
  }

  /** The protocol's digest of a file set, without the marker coordinate. */
  function PagesDigest(sha: Sha, files: seq<File>): Text {
    ComputeArtifactDigest(sha, Select(NotMarker, files))
  }

  lemma SortTwice<T>(s: seq<Keyed<T>>)
    ensures Sort(Sort(s)) == Sort(s)
  {
    SortSorted(s);
    SortFixesSorted(Sort(s));
  }

  lemma MarkerPathIsPlain()
    ensures Plain(GENERATION_MARKER_PATH)
  {
  }

  /** What decoding a staged carrier and digesting it without its marker gives. */
  lemma StagedDigest(sha: Sha, files: seq<File>, marker: Identity)
    requires PlainPaths(files) && CarrierOf(CarrierFiles(files, marker)).Ok?
    ensures CarrierDigest(sha, CarrierOf(CarrierFiles(files, marker)).value) == Ok(PagesDigest(sha, files))
  {
    hide CarrierOf, Decoded, MarkerBytes, DigestSorted, Project, Sort, Plain;
    var all := CarrierFiles(files, marker);
    MarkerPathIsPlain();
    assert PlainPaths(all);
    CarrierRoundTrip(all);
    SelectSort(NotMarker, all);
    SelectAppend(NotMarker, files, [all[|files|]]);
    assert Select(NotMarker, [all[|files|]]) == [];
    var payload := Select(NotMarker, files);
    assert Select(NotMarker, all) == payload;
    ProjectSort(sha, Sort(payload));
    ProjectSort(sha, payload);
    SortTwice(payload);
  }

  lemma {:induction false} NothingToExclude(files: seq<File>)
    requires forall k :: 0 <= k < |files| ==> NotMarker(files[k])
    ensures Select(NotMarker, files) == files
  {
    if files != [] {
      NothingToExclude(files[1..]);
    }
  }

  /** The check accepts a carrier exactly when its payload is the digested file set, byte for byte. */
  lemma IntegrityCheckDecides(sha: Sha, carrier: Bytes, files: seq<File>)
    requires forall x, y :: sha(x) == sha(y) ==> x == y
    requires Decoded(carrier).Ok?
    ensures CarrierDigest(sha, carrier) == Ok(PagesDigest(sha, files)) <==>
              Sort(Select(NotMarker, Decoded(carrier).value)) == Sort(Select(NotMarker, files))
  {
    hide Decoded, DigestSorted, Project, Sort;
    var payload := Select(NotMarker, Decoded(carrier).value);
    DigestDecidesFiles(sha, payload, Select(NotMarker, files));
  }

  // ---- The run-scoped state ----

  datatype StageRecord = StageRecord(
    stageToken: Text, operationId: Text, attemptId: Text, idempotencyKey: Text, generationId: Text,
    artifactId: Text, artifactDigest: Text, entryPaths: seq<Text>, entries: seq<Keyed<Entry>>,
    carrier: Bytes, carrierDigest: Text, pagesArtifactId: Text)

  datatype Activation = Activation(deploymentId: Text, entryPaths: seq<Text>, entries: seq<Keyed<Entry>>)

  datatype StageInput = StageInput(
    operationId: Text, attemptId: Text, idempotencyKey: Text, generationId: Text,
    artifactId: Text, artifactDigest: Text, files: seq<File>)

  /** What the artifact publisher answers. */
  datatype Published = Published(pagesArtifactId: Text, artifactDigest: Option<Text>)

  datatype Receipt = Receipt(
    stageToken: Text, fileCount: nat, byteCount: nat, carrierDigest: Text, pagesArtifactId: Text, idempotent: bool)

  datatype Failure =
    | IdempotencyKeyReuseConflict
    | MarkerInvalid
    | CarrierRefused(error: CarrierError)
    | PagesCarrierTooLarge
    | PublisherFailed
    | PagesCarrierHandoffMismatch
    | FenceInvalid
    | PagesAuthorityModeInvalid
    | PagesRecoveryRecordForbidden
    | PagesOidcRefused
    | PublicReadFailed
    | PagesRecoveryRecordInvalid
    | RecoveryCallFailed
    | PagesStageNotFound
    | StageIntegrityMismatch
    | PagesHeadShaInvalid
    | CreateFailed
    | PollStopped(failure: PollFailure)
    | PagesDeploymentFailed(status: string)

  /** JavaScript's `s.slice(from, to)` for `0 <= from <= to`. */
  function Slice(s: Text, from: nat, to: nat): Text
    requires from <= to
  {
    if |s| <= from then [] else if |s| <= to then s[from..] else s[from..to]
  }

  /** The first 32 characters after `sha256:`. */
  function TokenOf(carrierDigest: Text): Text {
    Slice(carrierDigest, 7, 39)
  }

  /** Of a tagged digest, 32 characters after the seven of its tag. */
  lemma TokenIsPart(digest: Text)
    requires |digest| >= 39
    ensures |TokenOf(digest)| == 32 && digest == digest[..7] + TokenOf(digest) + digest[39..]
  {
  }

  function Paths(files: seq<File>): (paths: seq<Text>)
    ensures |paths| == |files| && forall i :: 0 <= i < |files| ==> paths[i] == files[i].key
  {
    seq(|files|, i requires 0 <= i < |files| => files[i].key)
  }

  /** The stage map, by token, in insertion order. */
  type Stages = seq<Keyed<StageRecord>>

  function FindByKey(stages: Stages, key: Text): Option<StageRecord> {
    if stages == [] then None
    else if stages[0].val.idempotencyKey == key then Some(stages[0].val)
    else FindByKey(stages[1..], key)
  }

  // ---- Staging ----

  function RecordFor(sha: Sha, input: StageInput, carrier: Bytes, pagesArtifactId: Text): StageRecord {
    StageRecord(TokenOf(sha(carrier)), input.operationId, input.attemptId, input.idempotencyKey, input.generationId,
                input.artifactId, input.artifactDigest, Paths(input.files), Project(sha, input.files),
                carrier, sha(carrier), pagesArtifactId)
  }

  function MarkerFor(input: StageInput): Identity {
    Identity(input.artifactId, input.artifactDigest, input.generationId)
  }

  /** The record a fresh staging adds, or why there is none. */
  function FreshStage(env: Env, input: StageInput, published: Option<Published>): Result<StageRecord, Failure> {
    if !env.markerValid(MarkerFor(input)) then Err(MarkerInvalid)
    else match CarrierOf(CarrierFiles(input.files, MarkerFor(input)))
      case Err(e) => Err(CarrierRefused(e))
      case Ok(carrier) =>
        if |carrier| > MAXIMUM_PAGES_CARRIER_BYTES then Err(PagesCarrierTooLarge)
        else if published.None? then Err(PublisherFailed)
        else if published.value.artifactDigest.Some? && published.value.artifactDigest != Some(env.sha(carrier)) then
          Err(PagesCarrierHandoffMismatch)
        else Ok(RecordFor(env.sha, input, carrier, published.value.pagesArtifactId))
  }

  function ReceiptOf(r: StageRecord, idempotent: bool): Receipt {
    Receipt(r.stageToken, |r.entryPaths|, |r.carrier|, r.carrierDigest, r.pagesArtifactId, idempotent)
  }

  /** The record an idempotency key finds is the first staged under it. */
  lemma {:induction false} FindByKeyMeans(stages: Stages, key: Text)
    ensures FindByKey(stages, key).None? <==> forall i :: 0 <= i < |stages| ==> stages[i].val.idempotencyKey != key
    ensures FindByKey(stages, key).Some? ==>
              exists i :: 0 <= i < |stages| && stages[i].val == FindByKey(stages, key).value
                          && stages[i].val.idempotencyKey == key
                          && forall j :: 0 <= j < i ==> stages[j].val.idempotencyKey != key
  {
    if stages != [] {
      HeadAndTail(stages);
      var rest := stages[1..];
      FindByKeyMeans(rest, key);
      if stages[0].val.idempotencyKey == key {
        assert stages[0].val == FindByKey(stages, key).value;
      } else if FindByKey(rest, key).Some? {
        var i :| 0 <= i < |rest| && rest[i].val == FindByKey(rest, key).value && rest[i].val.idempotencyKey == key
                 && forall j :: 0 <= j < i ==> rest[j].val.idempotencyKey != key;
        assert stages[i + 1] == rest[i];
        forall j | 0 <= j < i + 1 ensures stages[j].val.idempotencyKey != key {
          assert j > 0 ==> stages[j] == rest[j - 1];
        }
      } else {
        forall i | 0 <= i < |stages| ensures stages[i].val.idempotencyKey != key {
          assert i > 0 ==> stages[i] == rest[i - 1];
        }
      }
    }
  }

  /**
   A fresh stage succeeds exactly when the marker is valid, the files and it fit a carrier
   within the ceiling, and the publisher came back with no digest or with the carrier's own.
   */
  lemma StagesExactlyWhen(env: Env, input: StageInput, published: Option<Published>)
    ensures var marker := Identity(input.artifactId, input.artifactDigest, input.generationId);
            var carrier := CarrierOf(input.files + [Keyed(GENERATION_MARKER_PATH, MarkerBytes(marker))]);
            var r := FreshStage(env, input, published);
            && (r.Ok? <==>
                  env.markerValid(marker) && carrier.Ok? && |carrier.value| <= MAXIMUM_PAGES_CARRIER_BYTES
                  && published.Some? && published.value.artifactDigest in {None, Some(env.sha(carrier.value))})
            && (r.Ok? ==>
                  r.value.carrier == carrier.value && r.value.carrierDigest == env.sha(carrier.value)
                  && r.value.pagesArtifactId == published.value.pagesArtifactId
                  && r.value.idempotencyKey == input.idempotencyKey && r.value.generationId == input.generationId
                  && r.value.artifactId == input.artifactId && r.value.artifactDigest == input.artifactDigest
                  && r.value.operationId == input.operationId && r.value.attemptId == input.attemptId)
            && (r == Err(MarkerInvalid) <==> !env.markerValid(marker))
            && (r == Err(PagesCarrierTooLarge) <==>
                  env.markerValid(marker) && carrier.Ok? && |carrier.value| > MAXIMUM_PAGES_CARRIER_BYTES)
            && (r == Err(PublisherFailed) <==>
                  env.markerValid(marker) && carrier.Ok? && |carrier.value| <= MAXIMUM_PAGES_CARRIER_BYTES && published.None?)
            && (r.Err? && r.error.CarrierRefused? <==> env.markerValid(marker) && carrier.Err?)
            && (r == Err(PagesCarrierHandoffMismatch) <==>
                  env.markerValid(marker) && carrier.Ok? && |carrier.value| <= MAXIMUM_PAGES_CARRIER_BYTES && published.Some?
                  && published.value.artifactDigest !in {None, Some(env.sha(carrier.value))})
  {
    hide CarrierOf, MarkerBytes;
  }

  // ---- Before the create ----

  datatype Mode = Normal | Recovery | OtherMode

  datatype ActivateInput = ActivateInput(
    stageToken: Text, generationId: Text, expectedCurrent: Option<Text>, expectedDigest: Option<Text>,
    mode: Mode, hasRecoveryRecord: bool)

  /**
   What the call meets: are the credential inputs accepted, what does the public marker
   read say (`None` when it throws), is the recovery record valid and which build version
   does it name, the run's head commit, and does the create call come back.
   */
  datatype Around = Around(
    oidcAccepted: bool, served: Option<Option<Text>>, priorVersion: Option<Text>, headSha: Option<Text>,
    createAnswered: bool)

  datatype Decision =
    | Activate(generationId: Text, previous: Option<Text>, idempotent: bool, deploymentId: Option<Text>, prior: Option<Observation>)
    | Reconcile(generationId: Text, previous: Option<Text>, prior: Option<Observation>)

  type Outcome = Result<Decision, Failure>

  predicate IsBuildVersion(t: Text) {
    |t| == 40 && forall i :: 0 <= i < 40 ==> IsLowerHex(t[i])
  }

  /** The checks made before the prior attempt is looked at. */
  function Admission(input: ActivateInput, around: Around): Result<Fence, Failure> {
    var fence := RequireGenerationFence(input.expectedCurrent);
    if fence.None? then Err(FenceInvalid)
    else if input.mode == OtherMode then Err(PagesAuthorityModeInvalid)
    else if input.mode == Normal && input.hasRecoveryRecord then Err(PagesRecoveryRecordForbidden)
    else if !around.oidcAccepted then Err(PagesOidcRefused)
    else if around.served.None? then Err(PublicReadFailed)
    else if input.mode == Recovery && (!input.hasRecoveryRecord || around.priorVersion.None?) then
      Err(PagesRecoveryRecordInvalid)
    else Ok(fence.value)
  }

  /** The recovery-prior calls an activation makes. */
  function PriorCalls(input: ActivateInput, around: Around, replies: Replies, cancelAnswered: bool): Resolution {
    if Admission(input, around).Ok? && input.mode == Recovery then
      ResolvePrior(replies, cancelAnswered, RECOVERY_POLL_BUDGET_SECONDS)
    else Resolution([], None)
  }

  /** The stage a token names passes the digest check the caller asked for. */
  function CheckedStage(env: Env, stages: Stages, input: ActivateInput): Result<StageRecord, Failure> {
    match Find(stages, input.stageToken)
    case None => Err(PagesStageNotFound)
    case Some(r) =>
      if input.expectedDigest.None? then Ok(r)
      else match CarrierDigest(env.sha, r.carrier)
        case Err(e) => Err(CarrierRefused(e))
        case Ok(digest) => if digest == input.expectedDigest.value then Ok(r) else Err(StageIntegrityMismatch)
  }

  /** How an activation ends without a create, or the stage and build version it creates with. */
  datatype Before = Ends(outcome: Outcome) | Creates(stage: StageRecord, version: Text)

  function BeforeCreate(env: Env, stages: Stages, input: ActivateInput, around: Around, prior: Option<Observation>): Before
    requires Admission(input, around).Ok? && (prior.Some? ==> input.mode == Recovery)
  {
    var previous := around.served.value;
    var id := input.generationId;
    if prior.Some? && prior.value.outcome.PriorSucceeded? then
      Ends(Ok(Activate(id, previous, true, around.priorVersion, prior)))
    else if prior.Some? && prior.value.outcome.ReconciliationRequired? then Ends(Ok(Reconcile(id, previous, prior)))
    else if previous == Some(id) then Ends(Ok(Activate(id, previous, true, None, prior)))
    else if FenceDisagrees(Admission(input, around).value, previous) then Ends(Ok(Reconcile(id, previous, prior)))
    else match CheckedStage(env, stages, input)
      case Err(e) => Ends(Err(e))
      case Ok(r) =>
        if around.headSha.None? || !IsBuildVersion(around.headSha.value) then Ends(Err(PagesHeadShaInvalid))
        else Creates(r, around.headSha.value)
  }

  /** Every way through the activation up to the create. */
  function Begin(env: Env, stages: Stages, input: ActivateInput, around: Around, replies: Replies, cancelAnswered: bool): Before {
    match Admission(input, around)
    case Err(e) => Ends(Err(e))
    case Ok(_) =>
      var prior := PriorCalls(input, around, replies, cancelAnswered).answer;
      if input.mode == Recovery && prior.None? then Ends(Err(RecoveryCallFailed))
      else BeforeCreate(env, stages, input, around, prior)
  }

  // ---- What an activation answers ----

  /** The fence can be read, the mode is one of the two, and normal mode comes without a recovery record. */
  predicate ModeAccepted(input: ActivateInput) {
    && FenceAccepted(input.expectedCurrent)
    && input.mode != OtherMode
    && !(input.mode == Normal && input.hasRecoveryRecord)
  }

  /** What must hold before the prior attempt is looked at. */
  predicate Admitted(input: ActivateInput, around: Around) {
    && ModeAccepted(input)
    && around.oidcAccepted
    && around.served.Some?
    && (input.mode == Recovery ==> input.hasRecoveryRecord && around.priorVersion.Some?)
  }

  /** What was done about the prior attempt: nothing outside recovery, the truthful call inside it. */
  ghost predicate PriorOf(input: ActivateInput, around: Around, replies: Replies, cancelAnswered: bool, prior: Resolution) {
    if Admitted(input, around) && input.mode == Recovery then
      Truthful(replies, cancelAnswered, RECOVERY_POLL_BUDGET_SECONDS, prior)
    else prior == Resolution([], None)
  }

  /** The prior attempt is out of the way: there is none to look at, or its last read said terminal failure. */
  predicate PriorSettled(input: ActivateInput, prior: Resolution) {
    input.mode == Recovery ==> prior.answer.Some? && Answers(prior.log) != [] && SaysTerminalFailure(Last(prior.log))
  }

  /** The last prior read said success. */
  predicate SucceededBefore(input: ActivateInput, around: Around, prior: Resolution) {
    Admitted(input, around) && input.mode == Recovery && prior.answer.Some? && Answers(prior.log) != [] && SaysSuccess(Last(prior.log))
  }

  /** The staged carrier digests to what the caller expects. */
  predicate DigestsAsExpected(env: Env, stage: StageRecord, input: ActivateInput) {
    input.expectedDigest.Some? ==> CarrierDigest(env.sha, stage.carrier) == Ok(input.expectedDigest.value)
  }

  /** Admitted, nothing prior in the way, something else served, and the fence names it. */
  predicate PastFence(input: ActivateInput, around: Around, prior: Resolution) {
    && Admitted(input, around)
    && PriorSettled(input, prior)
    && around.served.value != Some(input.generationId)
    && FenceNames(input.expectedCurrent, around.served.value)
  }

  /** Everything a create needs. */
  predicate MayCreate(env: Env, stages: Stages, input: ActivateInput, around: Around, prior: Resolution) {
    && PastFence(input, around, prior)
    && Find(stages, input.stageToken).Some?
    && DigestsAsExpected(env, Find(stages, input.stageToken).value, input)
    && around.headSha.Some? && IsBuildVersion(around.headSha.value)
  }

  /** Which refusal meets an input that is not admitted, in the order the checks are made. */
  lemma AdmissionAnswers(input: ActivateInput, around: Around)
    ensures var a := Admission(input, around);
            && (a.Ok? <==> Admitted(input, around))
            && (a.Ok? ==> forall observed :: FenceDisagrees(a.value, observed) <==> !FenceNames(input.expectedCurrent, observed))
            && (a == Err(FenceInvalid) <==> !FenceAccepted(input.expectedCurrent))
            && (a == Err(PagesAuthorityModeInvalid) <==> FenceAccepted(input.expectedCurrent) && input.mode == OtherMode)
            && (a == Err(PagesRecoveryRecordForbidden) <==>
                  FenceAccepted(input.expectedCurrent) && input.mode == Normal && input.hasRecoveryRecord)
            && (a == Err(PagesOidcRefused) <==> ModeAccepted(input) && !around.oidcAccepted)
            && (a == Err(PublicReadFailed) <==> ModeAccepted(input) && around.oidcAccepted && around.served.None?)
            && (a == Err(PagesRecoveryRecordInvalid) <==>
                  ModeAccepted(input) && around.oidcAccepted && around.served.Some?
                  && input.mode == Recovery && (!input.hasRecoveryRecord || around.priorVersion.None?))
  {
    hide FenceAccepted, FenceNames, FenceDisagrees, RequireGenerationFence;
    FenceReads(input.expectedCurrent, None);
    forall observed | RequireGenerationFence(input.expectedCurrent).Some?
      ensures FenceDisagrees(RequireGenerationFence(input.expectedCurrent).value, observed) <==> !FenceNames(input.expectedCurrent, observed) {
      FenceReads(input.expectedCurrent, observed);
    }
  }

  /** The calls made are the truthful ones. */
  lemma PriorIsTruthful(input: ActivateInput, around: Around, replies: Replies, cancelAnswered: bool)
    ensures PriorOf(input, around, replies, cancelAnswered, PriorCalls(input, around, replies, cancelAnswered))
  {
    hide Admission, Admitted, ResolvePrior, Truthful;
    AdmissionAnswers(input, around);
    ResolvePriorTruthful(replies, cancelAnswered, RECOVERY_POLL_BUDGET_SECONDS);
  }

  /** A call about the prior attempt has one way to go. */
  lemma PriorIsDecided(input: ActivateInput, around: Around, replies: Replies, cancelAnswered: bool, prior: Resolution)
    requires PriorOf(input, around, replies, cancelAnswered, prior)
    ensures prior == PriorCalls(input, around, replies, cancelAnswered)
    ensures prior.answer.Some? ==>
              && Answers(prior.log) != []
              && (prior.answer.value.outcome.PriorSucceeded? <==> SaysSuccess(Last(prior.log)))
              && (prior.answer.value.outcome.PriorTerminalFailure? <==> SaysTerminalFailure(Last(prior.log)))
  {
    hide Admission, Admitted, ResolvePrior, Answers, WaitTotal, CancelCount, Statuses, PriorLog, SaysTerminalFailure, SaysSuccess;
    PriorIsTruthful(input, around, replies, cancelAnswered);
    AdmissionAnswers(input, around);
    if Admitted(input, around) && input.mode == Recovery {
      TruthfulDecides(replies, cancelAnswered, RECOVERY_POLL_BUDGET_SECONDS, prior, PriorCalls(input, around, replies, cancelAnswered));
    }
  }

  /**
   How an admitted activation goes up to the create, from what is served, the fence, the
   last prior read, the staged carrier's own digest and the head commit.
   */
  lemma BeginAnswers(env: Env, stages: Stages, input: ActivateInput, around: Around, replies: Replies, cancelAnswered: bool, prior: Resolution)
    requires Admitted(input, around) && PriorOf(input, around, replies, cancelAnswered, prior)
    ensures var b := Begin(env, stages, input, around, replies, cancelAnswered);
            var id, previous, seen := input.generationId, around.served.value, prior.answer;
            && (input.mode == Recovery && seen.None? ==> b == Ends(Err(RecoveryCallFailed)))
            && (input.mode == Recovery && seen.Some? && SaysSuccess(Last(prior.log)) ==>
                  b == Ends(Ok(Activate(id, previous, true, around.priorVersion, seen))))
            && (input.mode == Recovery && seen.Some? && !SaysSuccess(Last(prior.log)) && !SaysTerminalFailure(Last(prior.log)) ==>
                  b == Ends(Ok(Reconcile(id, previous, seen))))
            && (PriorSettled(input, prior) && previous == Some(id) ==> b == Ends(Ok(Activate(id, previous, true, None, seen))))
            && (PriorSettled(input, prior) && previous != Some(id) && !FenceNames(input.expectedCurrent, previous) ==>
                  b == Ends(Ok(Reconcile(id, previous, seen))))
            && (PastFence(input, around, prior) ==>
                  match Find(stages, input.stageToken) {
                    case None => b == Ends(Err(PagesStageNotFound))
                    case Some(stage) =>
                      if DigestsAsExpected(env, stage, input) then
                        if around.headSha.Some? && IsBuildVersion(around.headSha.value) then b == Creates(stage, around.headSha.value)
                        else b == Ends(Err(PagesHeadShaInvalid))
                      else match CarrierDigest(env.sha, stage.carrier) {
                        case Ok(_) => b == Ends(Err(StageIntegrityMismatch))
                        case Err(e) => b == Ends(Err(CarrierRefused(e)))
                      }
                  })
  {
    hide CarrierDigest, Find, IsBuildVersion, FenceNames, FenceDisagrees, FenceAccepted, RequireGenerationFence, ResolvePrior,
      Answers, Truthful, SaysSuccess, SaysTerminalFailure, PriorCalls, Admission;
    AdmissionAnswers(input, around);
    PriorIsDecided(input, around, replies, cancelAnswered, prior);
  }

  /**
   A create is made exactly when: the call is admitted, the fence names what is served, that
   is not already the wanted generation, the stage is there and its carrier digests to what
   the caller expects, the head commit is a build version, and in recovery mode the last
   prior read said terminal failure. It is then of that stage at that commit.
   */
  lemma CreatesExactlyWhen(env: Env, stages: Stages, input: ActivateInput, around: Around, replies: Replies, cancelAnswered: bool, prior: Resolution)
    requires PriorOf(input, around, replies, cancelAnswered, prior)
    ensures var b := Begin(env, stages, input, around, replies, cancelAnswered);
            && (b.Creates? <==> MayCreate(env, stages, input, around, prior))
            && (b.Creates? ==> Some(b.stage) == Find(stages, input.stageToken) && Some(b.version) == around.headSha)
  {
    hide Begin, CarrierDigest, Find, IsBuildVersion, FenceNames, FenceAccepted, Admission, Truthful, Answers, SaysSuccess, SaysTerminalFailure;
    if Admitted(input, around) {
      BeginAnswers(env, stages, input, around, replies, cancelAnswered, prior);
      PriorIsDecided(input, around, replies, cancelAnswered, prior);
    } else {
      NotAdmitted(env, stages, input, around, replies, cancelAnswered);
    }
  }

  /** What is not admitted ends with its refusal. */
  lemma NotAdmitted(env: Env, stages: Stages, input: ActivateInput, around: Around, replies: Replies, cancelAnswered: bool)
    requires !Admitted(input, around)
    ensures Admission(input, around).Err?
    ensures Begin(env, stages, input, around, replies, cancelAnswered) == Ends(Err(Admission(input, around).error))
  {
    hide Admission, Admitted;
    AdmissionAnswers(input, around);
  }

  // ---- Staged carriers pass ----

  /** What a record staged from `files` is. */
  ghost predicate StagedFrom(sha: Sha, r: StageRecord, files: seq<File>) {
    var carrier := CarrierOf(CarrierFiles(files, Identity(r.artifactId, r.artifactDigest, r.generationId)));
    carrier == Ok(r.carrier) && |r.carrier| <= MAXIMUM_PAGES_CARRIER_BYTES
    && r.carrierDigest == sha(r.carrier) && r.stageToken == TokenOf(r.carrierDigest)
    && r.entryPaths == Paths(files) && r.entries == Project(sha, files)
  }

  /**
   A stage never fails the check against the digest of its own files, in whatever order
   the caller digested them.
   */
  lemma NeverMismatches(env: Env, stages: Stages, input: ActivateInput, files: seq<File>, digested: seq<File>)
    requires Find(stages, input.stageToken).Some?
    requires StagedFrom(env.sha, Find(stages, input.stageToken).value, files) && PlainPaths(files)
    requires DistinctKeys(files) && multiset(digested) == multiset(files)
    requires forall k :: 0 <= k < |files| ==> NotMarker(files[k])
    requires input.expectedDigest == Some(ComputeArtifactDigest(env.sha, digested))
    ensures CheckedStage(env, stages, input) == Ok(Find(stages, input.stageToken).value)
  {
    hide CarrierOf, CarrierDigest, DigestSorted, Project, Sort;
    var r := Find(stages, input.stageToken).value;
    StagedDigest(env.sha, files, Identity(r.artifactId, r.artifactDigest, r.generationId));
    NothingToExclude(files);
    DigestIgnoresOrder(env.sha, files, digested);
  }

  lemma CreatesHasNoPriorSuccess(env: Env, stages: Stages, input: ActivateInput, around: Around, replies: Replies, cancelAnswered: bool)
    ensures Begin(env, stages, input, around, replies, cancelAnswered).Creates? ==>
              around.served.Some?
              && var prior := PriorCalls(input, around, replies, cancelAnswered).answer;
                 prior.Some? ==> prior.value.outcome.PriorTerminalFailure?
  {
    hide CheckedStage, RequireGenerationFence, FenceDisagrees, IsBuildVersion, ResolvePrior;
  }

  // ---- The adapter ----

  class PagesAdapter {
    const env: Env
    var stages: Stages
    var activations: map<Text, Activation>
    var inFlight: map<Text, Text>

    /** The files each stage token was last staged from. */
    ghost var staged: map<Text, seq<File>>

    ghost predicate Valid()
      reads this
    {
      forall token :: Find(stages, token).Some? ==>
        token in staged && StagedFrom(env.sha, Find(stages, token).value, staged[token])
    }

    constructor (env: Env)
      ensures Valid() && this.env == env && stages == [] && activations == map[] && inFlight == map[]
    {
      this.env := env;
      stages, activations, inFlight, staged := [], map[], map[], map[];
    }

    function AfterPrior(activations: map<Text, Activation>, input: ActivateInput, around: Around, prior: Resolution): map<Text, Activation>
      reads this`stages
    {
      if prior.answer.Some? && prior.answer.value.outcome.PriorSucceeded? && around.priorVersion.Some? then
        activations[input.generationId := RoutesOf(Find(stages, input.stageToken), around.priorVersion.value)]
      else activations
    }

    lemma SuccessRemembered(before: map<Text, Activation>, input: ActivateInput, around: Around, replies: Replies, cancelAnswered: bool)
      ensures var prior := PriorCalls(input, around, replies, cancelAnswered);
              SucceededBefore(input, around, prior) ==>
                AfterPrior(before, input, around, prior) == before[input.generationId :=
                  match Find(stages, input.stageToken) {
                    case None => Activation(around.priorVersion.value, [], [])
                    case Some(s) => Activation(around.priorVersion.value, s.entryPaths, s.entries)
                  }]
    {
      hide PriorCalls, Answers, SaysSuccess, Find, Admission;
      PriorIsTruthful(input, around, replies, cancelAnswered);
      PriorIsDecided(input, around, replies, cancelAnswered, PriorCalls(input, around, replies, cancelAnswered));
    }

    method Stage(input: StageInput, published: Option<Published>) returns (r: Result<Receipt, Failure>)
      requires Valid()
      modifies this`stages, this`staged
      ensures Valid()
      ensures match FindByKey(old(stages), input.idempotencyKey)
              case Some(existing) =>
                stages == old(stages) && staged == old(staged)
                && r == (if existing.artifactDigest == input.artifactDigest then
                             Ok(Receipt(existing.stageToken, |existing.entryPaths|, |existing.carrier|, existing.carrierDigest,
                                        existing.pagesArtifactId, true))
                         else Err(IdempotencyKeyReuseConflict))
              case None =>
                match FreshStage(env, input, published)
                case Err(e) => r == Err(e) && stages == old(stages) && staged == old(staged)
                case Ok(record) =>
                  r == Ok(Receipt(record.stageToken, |input.files|, |record.carrier|, record.carrierDigest,
                                  record.pagesArtifactId, false))
                  && stages == Set(old(stages), record.stageToken, record)
                  && staged == old(staged)[record.stageToken := input.files]
    {
      hide CarrierOf, MarkerBytes, Find;
      var i := 0;
      assert stages[0..] == stages;
      while i < |stages|
        invariant 0 <= i <= |stages|
        invariant FindByKey(stages, input.idempotencyKey) == FindByKey(stages[i..], input.idempotencyKey)
      {
        var existing := stages[i].val;
        assert stages[i..][1..] == stages[i + 1..];
        if existing.idempotencyKey == input.idempotencyKey {
          if existing.artifactDigest != input.artifactDigest {
            return Err(IdempotencyKeyReuseConflict);
          }
          return Ok(ReceiptOf(existing, true));
        }
        i := i + 1;
      }
      assert stages[i..] == [];
      var marker := MarkerFor(input);
      if !env.markerValid(marker) {
        return Err(MarkerInvalid);
      }
      var encoded := EncodeCarrier(CarrierFiles(input.files, marker));
      if encoded.Err? {
        return Err(CarrierRefused(encoded.error));
      }
      var carrier := encoded.value;
      if |carrier| > MAXIMUM_PAGES_CARRIER_BYTES {
        return Err(PagesCarrierTooLarge);
      }
      var carrierDigest := env.sha(carrier);
      if published.None? {
        return Err(PublisherFailed);
      }
      if published.value.artifactDigest.Some? && published.value.artifactDigest.value != carrierDigest {
        return Err(PagesCarrierHandoffMismatch);
      }
      var record := RecordFor(env.sha, input, carrier, published.value.pagesArtifactId);
      SetKeys(stages, record.stageToken, record);
      stages := Set(stages, record.stageToken, record);
      staged := staged[record.stageToken := input.files];
      r := Ok(ReceiptOf(record, false));
    }

    /** What a finished call leaves in the activation map. */
    function RoutesOf(stage: Option<StageRecord>, deploymentId: Text): Activation {
      match stage
      case None => Activation(deploymentId, [], [])
      case Some(s) => Activation(deploymentId, s.entryPaths, s.entries)
    }

    /** Everything up to the create; only a prior success is remembered on the way. */
    method Clear(input: ActivateInput, around: Around, provider: Provider) returns (before: Before, priorObservation: Option<Observation>)
      modifies this`activations, provider
      ensures var replies := old(provider.Coming());
              var prior := PriorCalls(input, around, replies, provider.cancelAnswered);
              before == Begin(env, stages, input, around, replies, provider.cancelAnswered)
              && (before.Creates? ==> priorObservation == prior.answer)
              && provider.log == old(provider.log) + prior.log && provider.asked == old(provider.asked) + |Answers(prior.log)|
              && activations == AfterPrior(old(activations), input, around, prior)
              && (SucceededBefore(input, around, prior) ==>
                    activations == old(activations)[input.generationId :=
                      match Find(stages, input.stageToken) {
                        case None => Activation(around.priorVersion.value, [], [])
                        case Some(s) => Activation(around.priorVersion.value, s.entryPaths, s.entries)
                      }])
    {
      SuccessRemembered(activations, input, around, provider.Coming(), provider.cancelAnswered);
      hide CarrierDigest, Find, From, RequireGenerationFence, FenceDisagrees, IsBuildVersion, ResolvePrior, Answers;
      NothingYet();
      priorObservation := None;
      var fence := RequireGenerationFence(input.expectedCurrent);
      if fence.None? {
        return Ends(Err(FenceInvalid)), priorObservation;
      }
      if input.mode == OtherMode {
        return Ends(Err(PagesAuthorityModeInvalid)), priorObservation;
      }
      if input.mode == Normal && input.hasRecoveryRecord {
        return Ends(Err(PagesRecoveryRecordForbidden)), priorObservation;
      }
      if !around.oidcAccepted {
        return Ends(Err(PagesOidcRefused)), priorObservation;
      }
      if around.served.None? {
        return Ends(Err(PublicReadFailed)), priorObservation;
      }
      var served, id := around.served.value, input.generationId;
      if input.mode == Recovery {
        if !input.hasRecoveryRecord || around.priorVersion.None? {
          return Ends(Err(PagesRecoveryRecordInvalid)), priorObservation;
        }
        priorObservation := provider.ResolvePriorAttempt(RECOVERY_POLL_BUDGET_SECONDS);
        if priorObservation.None? {
          return Ends(Err(RecoveryCallFailed)), priorObservation;
        }
        if priorObservation.value.outcome == PriorSucceeded {
          activations := activations[id := RoutesOf(Find(stages, input.stageToken), around.priorVersion.value)];
          return Ends(Ok(Decision.Activate(id, served, true, around.priorVersion, priorObservation))), priorObservation;
        }
        if priorObservation.value.outcome == ReconciliationRequired {
          return Ends(Ok(Reconcile(id, served, priorObservation))), priorObservation;
        }
      }
      if served == Some(id) {
        return Ends(Ok(Decision.Activate(id, served, true, None, priorObservation))), priorObservation;
      }
      if FenceDisagrees(fence.value, served) {
        return Ends(Ok(Reconcile(id, served, priorObservation))), priorObservation;
      }
      var checked := CheckedStage(env, stages, input);
      if checked.Err? {
        return Ends(Err(checked.error)), priorObservation;
      }
      if around.headSha.None? || !IsBuildVersion(around.headSha.value) {
        return Ends(Err(PagesHeadShaInvalid)), priorObservation;
      }
      before := Creates(checked.value, around.headSha.value);
    }

    method Activate(input: ActivateInput, around: Around, provider: Provider) returns (r: Outcome)
      requires Valid()
      modifies this`activations, this`inFlight, provider
      ensures Valid()
      ensures var prior := PriorCalls(input, around, old(provider.Coming()), provider.cancelAnswered);
              old(provider.log) + prior.log <= provider.log
              && (old(provider.log) + prior.log != provider.log <==> MayCreate(env, stages, input, around, prior))
              && (MayCreate(env, stages, input, around, prior) ==> provider.log[|old(provider.log)| + |prior.log|] == Created)
      ensures var asked, replies := old(provider.asked), old(provider.Coming());
              var prior := PriorCalls(input, around, replies, provider.cancelAnswered);
              var id := input.generationId;
              match Begin(env, stages, input, around, replies, provider.cancelAnswered)
              case Ends(outcome) =>
                r == outcome && provider.log == old(provider.log) + prior.log && inFlight == old(inFlight)
                && activations == AfterPrior(old(activations), input, around, prior)
              case Creates(stage, version) =>
                var polled := PollFor(From(provider.replies, asked + |Answers(prior.log)|), POLL_BUDGET_SECONDS);
                provider.log == old(provider.log) + prior.log + [Created] + (if around.createAnswered then polled.log else [])
                && if !around.createAnswered then
                     r == Err(CreateFailed) && inFlight == old(inFlight)[id := version] && activations == old(activations)
                   else match polled.answer
                     case Err(e) =>
                       r == Err(PollStopped(e)) && inFlight == old(inFlight)[id := version] && activations == old(activations)
                     case Ok(terminal) =>
                       inFlight == old(inFlight) - {id}
                       && if terminal.succeeded then
                            r == Ok(Decision.Activate(id, around.served.value, false, Some(version), prior.answer))
                            && activations == old(activations)[id := RoutesOf(Some(stage), version)]
                          else r == Err(PagesDeploymentFailed(terminal.status)) && activations == old(activations)
    {
      hide Begin, PriorCalls, From, PollFor, Answers, StagedFrom, Find, MayCreate, PriorOf;
      CreatesHasNoPriorSuccess(env, stages, input, around, provider.Coming(), provider.cancelAnswered);
      PriorIsTruthful(input, around, provider.Coming(), provider.cancelAnswered);
      CreatesExactlyWhen(env, stages, input, around, provider.Coming(), provider.cancelAnswered,
                         PriorCalls(input, around, provider.Coming(), provider.cancelAnswered));
      var before, priorObservation := Clear(input, around, provider);
      if before.Ends? {
        return before.outcome;
      }
      var record, version, served, id := before.stage, before.version, around.served.value, input.generationId;
      inFlight := inFlight[id := version];
      var created := provider.Create(around.createAnswered);
      if !created {
        return Err(CreateFailed);
      }
      var polled := provider.PollDeployment(POLL_BUDGET_SECONDS);
      if polled.Err? {
        return Err(PollStopped(polled.error));
      }
      inFlight := inFlight - {id};
      if !polled.value.succeeded {
        return Err(PagesDeploymentFailed(polled.value.status));
      }
      activations := activations[id := RoutesOf(Some(record), version)];
      r := Ok(Decision.Activate(id, served, false, Some(version), priorObservation));
    }
  }
}
