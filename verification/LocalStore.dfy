/**
 The local-directory generation store as a state machine over filesystem steps. A call
 is a plan read off the disk it starts from; it may stop before any of its steps, and
 what it leaves behind is what the next call starts from. Removing a directory tree is
 one step per file and one for the directory.
 */
module LocalStore {
  import opened Wrappers
  import opened Utf16
  import opened OrderedMap
  import opened Utf8
  import opened Digest
  import opened GenerationFence
  import opened Marker

  type Id = Text
  type Token = Text

  /** The files below one directory. */
  type Tree = seq<File>

  /** `gala-generation-marker.json` */
  const MARKER_FILENAME: Text := [0x67, 0x61, 0x6C, 0x61, 0x2D, 0x67, 0x65, 0x6E, 0x65, 0x72, 0x61, 0x74, 0x69, 0x6F, 0x6E, 0x2D, 0x6D, 0x61, 0x72, 0x6B, 0x65, 0x72, 0x2E, 0x6A, 0x73, 0x6F, 0x6E]

  const MAXIMUM_PRIOR_GENERATIONS_ON_DISK := 5

  /** A directory under `releases/`: a generation or a private stage. */
  datatype Dir = Release(id: Id) | Scratch(token: Token)

  datatype Record = Record(generationId: Id, artifactDigest: Option<Text>)

  datatype JournalEntry = JournalEntry(
    operationId: Text, attemptId: Text, idempotencyKey: Text, artifactDigest: Text, generationId: Id)

  datatype Disk = Disk(
    dirs: map<Dir, Tree>, current: Option<Id>, history: seq<Record>, journal: seq<JournalEntry>)

  const EMPTY_DISK := Disk(map[], None, [], [])

  /** What the store takes from elsewhere: the hash, the stage token, the marker schema. */
  datatype Env = Env(sha: Sha, tokenOf: (Text, Text, Id) -> Token, markerValid: Identity -> bool)

  // ---- Steps ----

  datatype Step =
    | WriteFile(token: Token, path: Text, bytes: Bytes)
    | WriteJournal(entry: JournalEntry)
    | Commit(token: Token, id: Id)
    | Swap(id: Id)
    | WriteHistory(record: Record)
    | Unlink(dir: Dir, path: Text)
    | RemoveDir(dir: Dir)

  function TreeAt(d: Disk, dir: Dir): Tree {
    if dir in d.dirs then d.dirs[dir] else []
  }

  /** `retainAndPersist`: newest first, one record an id, the active one and five priors. */
  function Retain(history: seq<Record>, record: Record): seq<Record> {
    var inserted := [record] + Others(history, record.generationId);
    if |inserted| <= MAXIMUM_PRIOR_GENERATIONS_ON_DISK + 1 then inserted
    else inserted[..MAXIMUM_PRIOR_GENERATIONS_ON_DISK + 1]
  }

  function Others(history: seq<Record>, id: Id): seq<Record> {
    if history == [] then []
    else if history[0].generationId == id then Others(history[1..], id)
    else [history[0]] + Others(history[1..], id)
  }

  /** The effect of one filesystem step. A step the filesystem would refuse changes nothing. */
  function Apply(d: Disk, step: Step): Disk {
    match step
    case WriteFile(token, path, bytes) =>
      d.(dirs := d.dirs[Scratch(token) := Set(TreeAt(d, Scratch(token)), path, bytes)])
    case WriteJournal(entry) => d.(journal := d.journal + [entry])
    case Commit(token, id) =>
      if Scratch(token) in d.dirs && Release(id) !in d.dirs then
        d.(dirs := d.dirs[Release(id) := d.dirs[Scratch(token)]] - {Scratch(token)})
      else d
    case Swap(id) => d.(current := Some(id))
    case WriteHistory(record) => d.(history := Retain(d.history, record))
    case Unlink(dir, path) =>
      if dir in d.dirs then d.(dirs := d.dirs[dir := Delete(d.dirs[dir], path)]) else d
    case RemoveDir(dir) => if dir in d.dirs && d.dirs[dir] == [] then d.(dirs := d.dirs - {dir}) else d
  }

  function Run(d: Disk, steps: seq<Step>): Disk
    decreases |steps|
  {
    if steps == [] then d else Run(Apply(d, steps[0]), steps[1..])
  }

  // ---- Plans ----

  datatype Failure =
    | FenceInvalid
    | IdempotencyKeyReuseConflict
    | MarkerInvalid
    | StageMissing
    | StageIntegrityMismatch
    | MarkerUnreadable
    | RollbackGenerationNotRetained

  datatype Decision =
    | Staged(token: Token, idempotent: bool)
    | Activated(id: Id, previous: Option<Id>, idempotent: bool)
    | Reconcile(id: Id, previous: Option<Id>)
    | Cleaned(removed: bool)

  type Outcome = Result<Decision, Failure>

  /** The steps a call takes in this order, then the directories it removes, then its answer. */
  datatype Plan = Plan(fixed: seq<Step>, doomed: set<Dir>, outcome: Outcome)

  datatype StageInput = StageInput(
    operationId: Text, attemptId: Text, idempotencyKey: Text, generationId: Id,
    artifactId: Text, artifactDigest: Text, files: seq<File>)

  datatype ActivateInput = ActivateInput(
    stageToken: Token, generationId: Id, expectedCurrent: Option<Text>, expectedDigest: Option<Text>)

  datatype RollbackInput = RollbackInput(
    target: Id, newGenerationId: Id, newArtifactId: Text,
    operationId: Text, attemptId: Text, idempotencyKey: Text)

  function FindKey(journal: seq<JournalEntry>, key: Text): Option<JournalEntry> {
    if journal == [] then None
    else if journal[0].idempotencyKey == key then Some(journal[0])
    else FindKey(journal[1..], key)
  }

  function WriteFiles(token: Token, files: seq<File>): seq<Step> {
    if files == [] then [] else [WriteFile(token, files[0].key, files[0].val)] + WriteFiles(token, files[1..])
  }

  function EntryFor(input: StageInput): JournalEntry {
    JournalEntry(input.operationId, input.attemptId, input.idempotencyKey, input.artifactDigest, input.generationId)
  }

  function StagePlan(env: Env, d: Disk, input: StageInput): Plan {
    var token := env.tokenOf(input.operationId, input.attemptId, input.generationId);
    match FindKey(d.journal, input.idempotencyKey)
    case Some(prior) =>
      if prior.artifactDigest != input.artifactDigest then Plan([], {}, Err(IdempotencyKeyReuseConflict))
      else Plan([], {}, Ok(Staged(token, true)))
    case None =>
      var writes := WriteFiles(token, input.files);
      var marker := Identity(input.artifactId, input.artifactDigest, input.generationId);
      if !env.markerValid(marker) then Plan(writes, {}, Err(MarkerInvalid))
      else
        Plan(writes + [WriteFile(token, MARKER_FILENAME, MarkerBytes(marker)), WriteJournal(EntryFor(input))],
             {}, Ok(Staged(token, false)))
  }

  predicate IsPayload(file: File) {
    file.key != MARKER_FILENAME
  }

  /** `walkGenerationEntries`: every file but the marker, in path order. */
  function Walk(tree: Tree): seq<File> {
    Sort(Select(IsPayload, tree))
  }

  function WalkDigest(env: Env, tree: Tree): Text {
    DigestSorted(env.sha, Project(env.sha, Walk(tree)))
  }

  /** The parsed marker of a release; `None` where reading it throws. */
  function MarkerOf(tree: Tree): Option<Json.Json> {
    var bytes :- Find(tree, MARKER_FILENAME);
    ReadMarker(bytes)
  }

  function Ids(history: seq<Record>): set<Id> {
    set r | r in history :: r.generationId
  }

  /** Every release on disk that the history does not hold: what the sweep removes. */
  function Retired(d: Disk): set<Dir> {
    set dir | dir in d.dirs && dir.Release? && dir.id !in Ids(d.history)
  }

  function ActivatePlan(env: Env, d: Disk, input: ActivateInput): Plan {
    var fence := RequireGenerationFence(input.expectedCurrent);
    var id := input.generationId;
    var scratch := Scratch(input.stageToken);
    if fence.None? then Plan([], {}, Err(FenceInvalid))
    else if d.current == Some(id) then Plan([], {}, Ok(Activated(id, d.current, true)))
    else if FenceDisagrees(fence.value, d.current) then Plan([], {}, Ok(Reconcile(id, d.current)))
    else if input.expectedDigest.Some? && scratch !in d.dirs then Plan([], {}, Err(StageMissing))
    else if input.expectedDigest.Some? && WalkDigest(env, d.dirs[scratch]) != input.expectedDigest.value then
      Plan([], {}, Err(StageIntegrityMismatch))
    else if Release(id) !in d.dirs && scratch !in d.dirs then Plan([], {}, Err(StageMissing))
    else
      var commit := if Release(id) in d.dirs then [] else [Commit(input.stageToken, id)];
      var tree := if Release(id) in d.dirs then d.dirs[Release(id)] else d.dirs[scratch];
      match MarkerOf(tree)
      case None => Plan(commit + [Swap(id)], {}, Err(MarkerUnreadable))
      case Some(marker) =>
        var fixed := commit + [Swap(id), WriteHistory(Record(id, DigestOf(marker)))];
        Plan(fixed, Retired(Run(d, fixed)), Ok(Activated(id, d.current, false)))
  }

  function CleanupPlan(d: Disk, token: Token, generationId: Option<Id>): Plan {
    var stage := if Scratch(token) in d.dirs then {Scratch(token)} else {};
    var release :=
      if generationId.Some? && d.current != generationId && generationId.value !in Ids(d.history)
         && Release(generationId.value) in d.dirs
      then {Release(generationId.value)} else {};
    Plan([], stage + release, Ok(Cleaned(stage + release != {})))
  }

  function RollbackStage(env: Env, d: Disk, input: RollbackInput): StageInput
    requires Release(input.target) in d.dirs
  {
    var tree := d.dirs[Release(input.target)];
    StageInput(input.operationId, input.attemptId, input.idempotencyKey, input.newGenerationId,
               input.newArtifactId, WalkDigest(env, tree), Walk(tree))
  }

  function RollbackPlan(env: Env, d: Disk, input: RollbackInput): Plan {
    if Release(input.target) !in d.dirs then Plan([], {}, Err(RollbackGenerationNotRetained))
    else
      var staging := StagePlan(env, d, RollbackStage(env, d, input));
      if staging.outcome.Err? then staging
      else
        var staged := Run(d, staging.fixed);
        var token := env.tokenOf(input.operationId, input.attemptId, input.newGenerationId);
        var activation := ActivatePlan(env, staged,
          ActivateInput(token, input.newGenerationId, Some(FenceFor(staged.current)), None));
        Plan(staging.fixed + activation.fixed, activation.doomed, activation.outcome)
  }

  datatype Call =
    | CallStage(stage: StageInput)
    | CallActivate(activate: ActivateInput)
    | CallCleanup(token: Token, generationId: Option<Id>)
    | CallRollback(rollback: RollbackInput)

  function PlanOf(env: Env, d: Disk, call: Call): Plan {
    match call
    case CallStage(input) => StagePlan(env, d, input)
    case CallActivate(input) => ActivatePlan(env, d, input)
    case CallCleanup(token, generationId) => CleanupPlan(d, token, generationId)
    case CallRollback(input) => RollbackPlan(env, d, input)
  }

  // ---- What a call may have done when it stops ----

  predicate IsRemoval(step: Step, doomed: set<Dir>) {
    (step.Unlink? || step.RemoveDir?) && step.dir in doomed
  }

  /**
   `steps` are what a call with this plan did: some of the fixed steps, or all of them
   and some removals, in any order the directory listing gives; when it is `done`,
   nothing doomed is left.
   */
  ghost predicate Performs(d: Disk, plan: Plan, steps: seq<Step>, done: bool) {
    (steps <= plan.fixed && !done)
    || (plan.fixed <= steps
        && (forall i :: |plan.fixed| <= i < |steps| ==> IsRemoval(steps[i], plan.doomed))
        && (done ==> forall dir :: dir in plan.doomed ==> dir !in Run(d, steps).dirs))
  }

  // ---- Runs of steps ----

  lemma {:induction false} RunAppend(d: Disk, a: seq<Step>, b: seq<Step>)
    ensures Run(d, a + b) == Run(Run(d, a), b)
    decreases |a|
  {
    hide Apply;
    if a == [] {
      assert a + b == b;
    } else {
      RunAppend(Apply(d, a[0]), a[1..], b);
      assert (a + b)[1..] == a[1..] + b;
    }
  }

  lemma RunSnoc(d: Disk, a: seq<Step>, step: Step)
    ensures Run(d, a + [step]) == Apply(Run(d, a), step)
  {
    RunAppend(d, a, [step]);
  }

  lemma RunTwo(d: Disk, a: Step, b: Step)
    ensures Run(d, [a, b]) == Apply(Apply(d, a), b)
  {
    hide Apply;
    var rest := [b];
    assert [a, b][1..] == rest && rest[1..] == [];
    assert Run(Apply(d, a), rest) == Apply(Apply(d, a), b);
  }

  lemma RunThree(d: Disk, a: Step, b: Step, c: Step)
    ensures Run(d, [a, b, c]) == Apply(Apply(Apply(d, a), b), c)
  {
    hide Apply;
    assert [a, b, c][1..] == [b, c];
    RunTwo(Apply(d, a), b, c);
  }
}
