/**
 Replace-in-place activation on Spaces: write the new set, delete what it supersedes,
 then write the pointer last through a conditional write. The call may stop before any
 of its provider calls.
 */
module SpacesActivation {
  import opened Wrappers
  import opened Utf16
  import opened Utf8
  import opened Digest
  import opened GenerationFence
  import opened Marker
  import opened SpacesMarker
  import opened SpacesListing

  /** `.well-known/gala-generation.json` */
  const GENERATION_MARKER_KEY: Text := [0x2E, 0x77, 0x65, 0x6C, 0x6C, 0x2D, 0x6B, 0x6E, 0x6F, 0x77, 0x6E, 0x2F, 0x67, 0x61, 0x6C, 0x61, 0x2D, 0x67, 0x65, 0x6E, 0x65, 0x72, 0x61, 0x74, 0x69, 0x6F, 0x6E, 0x2E, 0x6A, 0x73, 0x6F, 0x6E]

  /** An object's bytes and whether it carries the immutable cache directive. */
  datatype Object = Object(bytes: Bytes, immutable: bool)

  type Bucket = map<Text, Object>
  type StagedFile = Keyed<Object>

  // ---- Listing ----

  /** What the provider answers to a listing, and the pages the listing sees of it. */
  datatype Listing = Listing(answers: Answers, pages: seq<Page>) {
    /** The tokens come to an end. */
    ghost predicate Ends() {
      Visits(answers, None, pages)
    }

    /** The served keys: what was listed without the pointer, once each. */
    function Served(): seq<Text> {
      Once(ServedKeys(KeysOf(pages)))
    }
  }

  /** `new Set(keys)`: each key at its first place. */
  function Once(keys: seq<Text>): (distinct: seq<Text>)
    ensures forall key :: key in distinct <==> key in keys
    ensures forall i, j :: 0 <= i < j < |distinct| ==> distinct[i] != distinct[j]
  {
    if keys == [] then []
    else
      var n := |keys| - 1;
      var before := Once(keys[..n]);
      assert keys == keys[..n] + [keys[n]];
      if keys[n] in before then before else before + [keys[n]]
  }

  function ServedKeys(keys: seq<Text>): (served: seq<Text>)
    ensures forall key :: key in served <==> key in keys && key != GENERATION_MARKER_KEY
  {
    if keys == [] then []
    else
      HeadAndTail(keys);
      (if keys[0] == GENERATION_MARKER_KEY then [] else [keys[0]]) + ServedKeys(keys[1..])
  }

  // ---- The steps of one activation ----

  datatype Step = Put(key: Text, obj: Object) | Delete(key: Text)

  function Apply(bucket: Bucket, step: Step): Bucket {
    match step
    case Put(key, obj) => bucket[key := obj]
    case Delete(key) => bucket - {key}
  }

  function Run(bucket: Bucket, steps: seq<Step>): Bucket {
    if steps == [] then bucket else Apply(Run(bucket, steps[..|steps| - 1]), steps[|steps| - 1])
  }

  function Writes(files: seq<StagedFile>): seq<Step> {
    if files == [] then []
    else
      var last := files[|files| - 1];
      Writes(files[..|files| - 1]) + (if last.key == GENERATION_MARKER_KEY then [] else [Put(last.key, last.val)])
  }

  function Deletes(keys: seq<Text>): (steps: seq<Step>)
    ensures |steps| == |keys| && forall i :: 0 <= i < |keys| ==> steps[i] == Delete(keys[i])
  {
    seq(|keys|, i requires 0 <= i < |keys| => Delete(keys[i]))
  }

  /** What the listing holds and no file replaces, in listing order. */
  function Superseded(listed: seq<Text>, files: seq<StagedFile>): seq<Text> {
    if files == [] then listed
    else
      var last := files[|files| - 1];
      var before := Superseded(listed, files[..|files| - 1]);
      if last.key == GENERATION_MARKER_KEY then before else Without(before, last.key)
  }

  function Without(keys: seq<Text>, key: Text): (rest: seq<Text>)
    ensures forall k :: k in rest <==> k in keys && k != key
  {
    if keys == [] then []
    else
      HeadAndTail(keys);
      (if keys[0] == key then [] else [keys[0]]) + Without(keys[1..], key)
  }

  /** Every served-root step before the pointer write. */
  function RootSteps(listed: seq<Text>, files: seq<StagedFile>): seq<Step> {
    Writes(files) + Deletes(Superseded(listed, files))
  }

  /** The object the new set holds under a key: the last file of that path. */
  function NewObject(files: seq<StagedFile>, key: Text): Option<Object> {
    if files == [] || key == GENERATION_MARKER_KEY then None
    else
      var last := files[|files| - 1];
      if last.key == key then Some(last.val) else NewObject(files[..|files| - 1], key)
  }

  function ObjectAt(bucket: Bucket, key: Text): Option<Object> {
    if key in bucket then Some(bucket[key]) else None
  }

  lemma {:induction false} RunAppend(bucket: Bucket, a: seq<Step>, b: seq<Step>)
    ensures Run(bucket, a + b) == Run(Run(bucket, a), b)
  {
    hide Apply;
    if b == [] {
      assert a + b == a;
    } else {
      var n := |b| - 1;
      assert (a + b)[..|a + b| - 1] == a + b[..n];
      RunAppend(bucket, a, b[..n]);
    }
  }

  lemma RunSnoc(bucket: Bucket, steps: seq<Step>, step: Step)
    ensures Run(bucket, steps + [step]) == Apply(Run(bucket, steps), step)
  {
    assert (steps + [step])[..|steps|] == steps;
  }

  lemma {:induction false} SupersededAre(listed: seq<Text>, files: seq<StagedFile>)
    ensures forall key :: key in Superseded(listed, files) <==>
                            key in listed && (key == GENERATION_MARKER_KEY || NewObject(files, key).None?)
  {
    if files != [] {
      SupersededAre(listed, files[..|files| - 1]);
    }
  }

  lemma {:induction false} AfterWrites(bucket: Bucket, files: seq<StagedFile>)
    ensures forall key :: ObjectAt(Run(bucket, Writes(files)), key) ==
                            if NewObject(files, key).Some? then NewObject(files, key) else ObjectAt(bucket, key)
  {
    if files != [] {
      var n := |files| - 1;
      AfterWrites(bucket, files[..n]);
      if files[n].key == GENERATION_MARKER_KEY {
        assert Writes(files) == Writes(files[..n]);
      } else {
        RunSnoc(bucket, Writes(files[..n]), Put(files[n].key, files[n].val));
      }
    }
  }

  lemma {:induction false} AfterDeletes(bucket: Bucket, keys: seq<Text>)
    ensures forall key :: ObjectAt(Run(bucket, Deletes(keys)), key) ==
                            if key in keys then None else ObjectAt(bucket, key)
    decreases |keys|
  {
    if keys != [] {
      var n := |keys| - 1;
      AfterDeletes(bucket, keys[..n]);
      assert Deletes(keys) == Deletes(keys[..n]) + [Delete(keys[n])];
      RunSnoc(bucket, Deletes(keys[..n]), Delete(keys[n]));
      assert keys == keys[..n] + [keys[n]];
    }
  }

  /** The new set beside `pointer`; of the old objects only those no listing named are left. */
  ghost predicate Replaced(bucket: Bucket, listed: seq<Text>, files: seq<StagedFile>, now: Bucket, pointer: Option<Object>) {
    forall key :: ObjectAt(now, key) ==
                    if key == GENERATION_MARKER_KEY then pointer
                    else if NewObject(files, key).Some? then NewObject(files, key)
                    else if key in listed then None
                    else ObjectAt(bucket, key)
  }

  /** What the root is after all of them. */
  lemma RootReplaced(bucket: Bucket, listed: seq<Text>, files: seq<StagedFile>)
    requires GENERATION_MARKER_KEY !in listed
    ensures Replaced(bucket, listed, files, Run(bucket, RootSteps(listed, files)), ObjectAt(bucket, GENERATION_MARKER_KEY))
  {
    hide Run, Writes;
    RunAppend(bucket, Writes(files), Deletes(Superseded(listed, files)));
    AfterWrites(bucket, files);
    AfterDeletes(Run(bucket, Writes(files)), Superseded(listed, files));
    SupersededAre(listed, files);
    MarkerNeverNew(files);
  }

  lemma MarkerNeverNew(files: seq<StagedFile>)
    ensures NewObject(files, GENERATION_MARKER_KEY).None?
  {
  }

  /** The new set and this pointer, and nothing else. */
  ghost predicate ServesExactly(bucket: Bucket, files: seq<StagedFile>, pointer: Option<Object>) {
    forall key :: ObjectAt(bucket, key) == if key == GENERATION_MARKER_KEY then pointer else NewObject(files, key)
  }

  /** Nothing else is left exactly when the listing named every object no file replaces. */
  lemma ServesExactlyWhenListed(bucket: Bucket, listed: seq<Text>, files: seq<StagedFile>, now: Bucket, pointer: Option<Object>)
    requires Replaced(bucket, listed, files, now, pointer)
    ensures ServesExactly(now, files, pointer) <==>
              forall key :: key in bucket && key != GENERATION_MARKER_KEY && NewObject(files, key).None? ==> key in listed
  {
    hide NewObject;
    if ServesExactly(now, files, pointer) {
      forall key | key in bucket && key != GENERATION_MARKER_KEY && NewObject(files, key).None? ensures key in listed {
        assert ObjectAt(now, key).None?;
      }
    }
  }

  /** A listing of every key, however its pages are cut. */
  ghost predicate Complete(listing: Listing, bucket: Bucket) {
    listing.Ends() && forall key :: key in KeysOf(listing.pages) <==> key in bucket
  }

  lemma CompleteServesExactly(bucket: Bucket, listing: Listing, files: seq<StagedFile>, now: Bucket, pointer: Option<Object>)
    requires Complete(listing, bucket) && Replaced(bucket, listing.Served(), files, now, pointer)
    ensures ServesExactly(now, files, pointer)
  {
    ServesExactlyWhenListed(bucket, listing.Served(), files, now, pointer);
  }

  /** One of the files of that path, whichever. */
  ghost predicate IsNew(files: seq<StagedFile>, key: Text, obj: Object) {
    exists i :: 0 <= i < |files| && files[i] == Keyed(key, obj)
  }

  /** Every object is an old one or a new one, and only superseded ones are gone. */
  ghost predicate OldOrNew(bucket: Bucket, files: seq<StagedFile>, now: Bucket) {
    ObjectAt(now, GENERATION_MARKER_KEY) == ObjectAt(bucket, GENERATION_MARKER_KEY)
    && (forall key :: key in now && key != GENERATION_MARKER_KEY ==>
          IsNew(files, key, now[key]) || ObjectAt(bucket, key) == Some(now[key]))
    && (forall key :: key in bucket && key !in now ==> NewObject(files, key).None?)
  }

  lemma {:induction false} WritesAre(files: seq<StagedFile>)
    ensures forall step :: step in Writes(files) ==>
                             step.Put? && step.key != GENERATION_MARKER_KEY && IsNew(files, step.key, step.obj)
  {
    if files != [] {
      var n := |files| - 1;
      WritesAre(files[..n]);
      forall step | step in Writes(files)
        ensures step.Put? && step.key != GENERATION_MARKER_KEY && IsNew(files, step.key, step.obj)
      {
        if step in Writes(files[..n]) {
          var i :| 0 <= i < n && files[..n][i] == Keyed(step.key, step.obj);
          assert files[i] == Keyed(step.key, step.obj);
        } else {
          assert files[n] == Keyed(step.key, step.obj);
        }
      }
    }
  }

  /** Wherever the call stops before its pointer write. */
  lemma {:induction false} EveryPrefixOldOrNew(bucket: Bucket, listed: seq<Text>, files: seq<StagedFile>, n: nat)
    requires n <= |RootSteps(listed, files)| && GENERATION_MARKER_KEY !in listed
    ensures OldOrNew(bucket, files, Run(bucket, RootSteps(listed, files)[..n]))
  {
    hide RootSteps, NewObject, IsNew, Run, Apply, OldOrNew;
    var steps := RootSteps(listed, files);
    if n == 0 {
      StartsOldOrNew(bucket, files);
      assert steps[..n] == [];
    } else {
      EveryPrefixOldOrNew(bucket, listed, files, n - 1);
      assert steps[..n] == steps[..n - 1] + [steps[n - 1]];
      RunSnoc(bucket, steps[..n - 1], steps[n - 1]);
      StepsAre(listed, files, n - 1);
      StepKeepsOldOrNew(bucket, files, Run(bucket, steps[..n - 1]), steps[n - 1]);
    }
  }

  lemma StartsOldOrNew(bucket: Bucket, files: seq<StagedFile>)
    ensures OldOrNew(bucket, files, Run(bucket, []))
  {
  }

  lemma StepKeepsOldOrNew(bucket: Bucket, files: seq<StagedFile>, now: Bucket, step: Step)
    requires OldOrNew(bucket, files, now) && step.key != GENERATION_MARKER_KEY
    requires if step.Put? then IsNew(files, step.key, step.obj) else NewObject(files, step.key).None?
    ensures OldOrNew(bucket, files, Apply(now, step))
  {
    hide NewObject, IsNew;
  }

  lemma StepsAre(listed: seq<Text>, files: seq<StagedFile>, i: nat)
    requires i < |RootSteps(listed, files)| && GENERATION_MARKER_KEY !in listed
    ensures var step := RootSteps(listed, files)[i];
            step.key != GENERATION_MARKER_KEY
            && (if step.Put? then IsNew(files, step.key, step.obj) else NewObject(files, step.key).None?)
  {
    hide Writes, NewObject, Superseded, IsNew;
    WritesAre(files);
    SupersededAre(listed, files);
    var superseded := Superseded(listed, files);
    if i < |Writes(files)| {
      assert RootSteps(listed, files)[i] in Writes(files);
    } else {
      assert superseded[i - |Writes(files)|] in superseded;
    }
  }

  // ---- The conditional pointer write ----

  /** The answer to `HEAD` on the pointer. */
  datatype Head = Head(status: int, etag: Option<Text>)

  datatype Condition = IfNoneMatch | IfMatch(etag: Text)

  function ConditionFor(head: Head): Condition {
    if head.status == 404 || head.etag.None? then IfNoneMatch else IfMatch(head.etag.value)
  }

  /** Does the condition hold of the pointer as it is? */
  predicate Accepts(condition: Condition, etagOf: Bytes -> Text, pointer: Option<Object>) {
    match condition
    case IfNoneMatch => pointer.None?
    case IfMatch(etag) => pointer.Some? && etagOf(pointer.value.bytes) == etag
  }

  /** The head a provider gives of a pointer. */
  predicate HeadOf(head: Head, etagOf: Bytes -> Text, pointer: Option<Object>) {
    match pointer
    case None => head.status == 404
    case Some(o) => head == Head(200, Some(etagOf(o.bytes)))
  }

  /** A condition taken from a pointer accepts exactly the pointers with that ETag. */
  lemma ConditionPins(head: Head, etagOf: Bytes -> Text, taken: Option<Object>, later: Option<Object>)
    requires HeadOf(head, etagOf, taken)
    ensures Accepts(ConditionFor(head), etagOf, later) <==>
              (taken.None? && later.None?)
              || (taken.Some? && later.Some? && etagOf(taken.value.bytes) == etagOf(later.value.bytes))
  {
  }

  // ---- One activation ----

  datatype Env = Env(sha: Sha, etagOf: Bytes -> Text, markerValid: Identity -> bool)

  datatype Stage = Stage(files: seq<StagedFile>, artifactId: Text, artifactDigest: Text)

  /** The caller's own values, and what the run remembers of the stage token. */
  datatype ActivateInput = ActivateInput(
    generationId: Text, expectedCurrent: Option<Text>, expectedDigest: Option<Text>,
    files: Option<seq<StagedFile>>, artifactId: Option<Text>, artifactDigest: Option<Text>, remembered: Option<Stage>)

  /**
   What the provider answers: the two public marker reads and the pointer's `HEAD` (`None`
   when they throw), the listing, and whether it honours the conditional write.
   */
  datatype Around = Around(
    served: Option<Option<Text>>, head: Option<Head>, listing: Option<Listing>, honours: bool, confirmed: Option<Option<Text>>)

  datatype Failure =
    | FenceInvalid
    | PublicReadFailed
    | StageNotFound
    | ActivationIdentityUnavailable
    | StageIntegrityMismatch
    | ProviderCallFailed
    | MarkerInvalid
    | ActivationUnconfirmed

  datatype Decision =
    | Activate(generationId: Text, previous: Option<Text>, idempotent: bool)
    | Reconcile(generationId: Text, previous: Option<Text>, destinationChanged: bool)

  type Outcome = Result<Decision, Failure>

  /** The answer when the pointer write is refused: the root was already replaced. */
  function PointerLost(generationId: Text, previous: Option<Text>): Decision {
    Reconcile(generationId, previous, true)
  }

  /** The answer once the pointer was written and a public read names the new generation. */
  function PointerWon(generationId: Text, previous: Option<Text>): Decision {
    Activate(generationId, previous, false)
  }

  function FilesOf(input: ActivateInput): Option<seq<StagedFile>> {
    if input.files.Some? then input.files
    else if input.remembered.Some? then Some(input.remembered.value.files) else None
  }

  function ArtifactIdOf(input: ActivateInput): Option<Text> {
    if input.artifactId.Some? then input.artifactId
    else if input.remembered.Some? then Some(input.remembered.value.artifactId) else None
  }

  predicate IsPayload(file: Keyed<Bytes>) {
    file.key != GENERATION_MARKER_KEY
  }

  function SpacesDigest(sha: Sha, files: seq<StagedFile>): Text {
    ComputeArtifactDigest(sha, Select(IsPayload, MapValues(BytesOf, files)))
  }

  function BytesOf(o: Object): Bytes {
    o.bytes
  }

  lemma {:induction false} PayloadKept(files: seq<StagedFile>)
    requires forall k :: 0 <= k < |files| ==> files[k].key != GENERATION_MARKER_KEY
    ensures Select(IsPayload, MapValues(BytesOf, files)) == MapValues(BytesOf, files)
  {
    if files != [] {
      PayloadKept(files[1..]);
      Uncons(Keyed(files[0].key, files[0].val.bytes), MapValues(BytesOf, files[1..]));
    }
  }

  /** The digest is the protocol's over paths and bytes, and a marker among the files does not show in it. */
  lemma DigestsPayload(sha: Sha, files: seq<StagedFile>, marker: Object)
    requires forall k :: 0 <= k < |files| ==> files[k].key != GENERATION_MARKER_KEY
    ensures SpacesDigest(sha, files) == ComputeArtifactDigest(sha, MapValues(BytesOf, files))
    ensures SpacesDigest(sha, files + [Keyed(GENERATION_MARKER_KEY, marker)]) == SpacesDigest(sha, files)
  {
    hide ComputeArtifactDigest;
    PayloadKept(files);
    var last := Keyed(GENERATION_MARKER_KEY, marker);
    MapAppend(BytesOf, files, [last]);
    SelectAppend(IsPayload, MapValues(BytesOf, files), MapValues(BytesOf, [last]));
    assert [last][1..] == [] && Select(IsPayload, MapValues(BytesOf, [last])) == [];
    assert MapValues(BytesOf, files) + [] == MapValues(BytesOf, files);
  }

  function MarkerOf(env: Env, input: ActivateInput): Identity
    requires FilesOf(input).Some? && ArtifactIdOf(input).Some?
  {
    var digest :=
      if input.artifactDigest.Some? then input.artifactDigest.value
      else if input.remembered.Some? then input.remembered.value.artifactDigest
      else SpacesDigest(env.sha, FilesOf(input).value);
    Identity(ArtifactIdOf(input).value, digest, input.generationId)
  }

  /** Every way the call ends before it touches the served bucket. */
  function EndsEarly(env: Env, input: ActivateInput, around: Around): Option<Outcome> {
    var fence := RequireGenerationFence(input.expectedCurrent);
    if fence.None? then Some(Err(FenceInvalid))
    else if around.served.None? then Some(Err(PublicReadFailed))
    else
      var previous := around.served.value;
      if previous == Some(input.generationId) then Some(Ok(Activate(input.generationId, previous, true)))
      else if FenceDisagrees(fence.value, previous) then Some(Ok(Reconcile(input.generationId, previous, false)))
      else if FilesOf(input).None? then Some(Err(StageNotFound))
      else if ArtifactIdOf(input).None? then Some(Err(ActivationIdentityUnavailable))
      else if input.expectedDigest.Some? && SpacesDigest(env.sha, FilesOf(input).value) != input.expectedDigest.value then
        Some(Err(StageIntegrityMismatch))
      else if around.head.None? || around.listing.None? then Some(Err(ProviderCallFailed))
      else None
  }

  /** The caller's files, or the remembered stage's. */
  predicate HasFiles(input: ActivateInput, files: seq<StagedFile>) {
    if input.files.Some? then files == input.files.value
    else input.remembered.Some? && files == input.remembered.value.files
  }

  /**
   What the call must meet before it touches the served bucket: something else is served,
   the fence names it, files and an identity to write are at hand, the files digest to what
   the caller expects, and the provider answered.
   */
  ghost predicate ReachesRoot(env: Env, input: ActivateInput, around: Around) {
    && around.served.Some?
    && around.served.value != Some(input.generationId)
    && FenceNames(input.expectedCurrent, around.served.value)
    && (input.artifactId.Some? || input.remembered.Some?)
    && (exists files :: HasFiles(input, files)
          && (input.expectedDigest.Some? ==> SpacesDigest(env.sha, files) == input.expectedDigest.value))
    && around.head.Some? && around.listing.Some?
  }

  /** The answer of a call that does not get there. */
  ghost predicate Refused(env: Env, input: ActivateInput, around: Around, r: Outcome) {
    var id, fence := input.generationId, input.expectedCurrent;
    if !FenceAccepted(fence) then r == Err(FenceInvalid)
    else if around.served.None? then r == Err(PublicReadFailed)
    else
      var served := around.served.value;
      && (served == Some(id) ==> r == Ok(Activate(id, served, true)))
      && (served != Some(id) && !FenceNames(fence, served) ==> r == Ok(Reconcile(id, served, false)))
      && (served != Some(id) && FenceNames(fence, served) ==>
            && (r == Err(StageNotFound) <==> input.files.None? && input.remembered.None?)
            && (r == Err(ActivationIdentityUnavailable) <==>
                  input.files.Some? && input.artifactId.None? && input.remembered.None?)
            && (r == Err(StageIntegrityMismatch) <==>
                  && (input.artifactId.Some? || input.remembered.Some?)
                  && (exists files :: HasFiles(input, files) && input.expectedDigest.Some?
                        && SpacesDigest(env.sha, files) != input.expectedDigest.value))
            && (r in {Err(StageNotFound), Err(ActivationIdentityUnavailable), Err(StageIntegrityMismatch)}
                || (r == Err(ProviderCallFailed) && (around.head.None? || around.listing.None?))))
  }

  /** The call ends before the served bucket exactly when something is missing, and then with that refusal. */
  lemma EarlyAnswers(env: Env, input: ActivateInput, around: Around)
    ensures EndsEarly(env, input, around).None? <==> ReachesRoot(env, input, around)
    ensures EndsEarly(env, input, around).Some? ==> Refused(env, input, around, EndsEarly(env, input, around).value)
  {
    hide SpacesDigest, FenceNames, FenceAccepted, FenceDisagrees, RequireGenerationFence;
    FenceReads(input.expectedCurrent, None);
    if around.served.Some? {
      FenceReads(input.expectedCurrent, around.served.value);
    }
    if FilesOf(input).Some? {
      assert HasFiles(input, FilesOf(input).value);
    }
  }

  /** What the pointer written says: the wanted generation, the given identity before the remembered one, and the files' own digest only when neither names one. */
  lemma PointerSays(env: Env, input: ActivateInput)
    requires FilesOf(input).Some? && ArtifactIdOf(input).Some?
    ensures var m := MarkerOf(env, input);
            && m.generationId == input.generationId
            && (input.artifactId.Some? ==> m.artifactId == input.artifactId.value)
            && (input.artifactId.None? ==> m.artifactId == input.remembered.value.artifactId)
            && (input.artifactDigest.Some? ==> m.artifactDigest == input.artifactDigest.value)
            && (input.artifactDigest.None? && input.remembered.Some? ==> m.artifactDigest == input.remembered.value.artifactDigest)
            && (input.artifactDigest.None? && input.remembered.None? ==> m.artifactDigest == SpacesDigest(env.sha, input.files.value))
  {
    hide SpacesDigest;
  }

  /** What the root steps are, once the call reaches them. */
  function Plan(env: Env, input: ActivateInput, around: Around): seq<Step>
    requires EndsEarly(env, input, around).None?
  {
    RootSteps(around.listing.value.Served(), FilesOf(input).value)
  }

  function PointerObject(env: Env, input: ActivateInput): Object
    requires FilesOf(input).Some? && ArtifactIdOf(input).Some?
  {
    Object(SpacesMarkerBytes(MarkerOf(env, input)), false)
  }

  /** The served bucket with this call as its only writer; `fuse` is how many writes it still gets to make. */
  class ServedBucket {
    const env: Env
    var objects: Bucket
    var fuse: nat
    ghost var trail: seq<Step>

    constructor (env: Env, objects: Bucket, fuse: nat)
      ensures this.env == env && this.objects == objects && this.fuse == fuse && trail == []
    {
      this.env, this.objects, this.fuse, trail := env, objects, fuse, [];
    }

    method PutObject(key: Text, obj: Object) returns (alive: bool)
      modifies this
      ensures alive <==> old(fuse) > 0
      ensures alive ==> objects == Apply(old(objects), Put(key, obj)) && trail == old(trail) + [Put(key, obj)] && fuse == old(fuse) - 1
      ensures !alive ==> objects == old(objects) && trail == old(trail) && fuse == 0
    {
      alive := fuse > 0;
      if alive {
        fuse, objects, trail := fuse - 1, objects[key := obj], trail + [Put(key, obj)];
      }
    }

    method DeleteObject(key: Text) returns (alive: bool)
      modifies this
      ensures alive <==> old(fuse) > 0
      ensures alive ==> objects == Apply(old(objects), Delete(key)) && trail == old(trail) + [Delete(key)] && fuse == old(fuse) - 1
      ensures !alive ==> objects == old(objects) && trail == old(trail) && fuse == 0
    {
      alive := fuse > 0;
      if alive {
        fuse, objects, trail := fuse - 1, objects - {key}, trail + [Delete(key)];
      }
    }

    /** The loop over the files; `servedBefore` shrinks to what they supersede. */
    method WriteFiles(files: seq<StagedFile>, listed: seq<Text>) returns (alive: bool, servedBefore: seq<Text>)
      modifies this
      ensures old(trail) <= trail <= old(trail) + Writes(files)
      ensures objects == Run(old(objects), trail[|old(trail)|..])
      ensures alive <==> old(fuse) >= |Writes(files)|
      ensures fuse + |trail| == old(fuse) + |old(trail)|
      ensures alive ==> trail == old(trail) + Writes(files) && servedBefore == Superseded(listed, files)
    {
      hide Apply, Run, Writes, Superseded;
      alive, servedBefore := true, listed;
      ghost var done: seq<Step> := [];
      var i := 0;
      NothingRun(objects);
      NothingWritten(listed, files[..0]);
      while i < |files|
        invariant 0 <= i <= |files|
        invariant trail == old(trail) + done && objects == Run(old(objects), done) && done == Writes(files[..i])
        invariant alive && fuse == old(fuse) - |done|
        invariant servedBefore == Superseded(listed, files[..i])
      {
        WritesGrow(files, i);
        SupersededGrows(listed, files, i);
        if files[i].key != GENERATION_MARKER_KEY {
          alive := PutObject(files[i].key, files[i].val);
          if !alive {
            SinceThen(old(trail), done);
            return;
          }
          RunSnoc(old(objects), done, Put(files[i].key, files[i].val));
          done := done + [Put(files[i].key, files[i].val)];
          servedBefore := Without(servedBefore, files[i].key);
        }
        i := i + 1;
      }
      assert files[..i] == files;
      SinceThen(old(trail), done);
    }

    method DeleteAll(keys: seq<Text>) returns (alive: bool)
      modifies this
      ensures old(trail) <= trail <= old(trail) + Deletes(keys)
      ensures objects == Run(old(objects), trail[|old(trail)|..])
      ensures alive <==> old(fuse) >= |keys|
      ensures fuse + |trail| == old(fuse) + |old(trail)|
      ensures alive ==> trail == old(trail) + Deletes(keys)
    {
      hide Apply;
      alive := true;
      ghost var done: seq<Step> := [];
      var i := 0;
      while i < |keys|
        invariant 0 <= i <= |keys|
        invariant trail == old(trail) + done && objects == Run(old(objects), done) && done == Deletes(keys)[..i]
        invariant alive && fuse == old(fuse) - |done|
      {
        alive := DeleteObject(keys[i]);
        if !alive {
          assert trail[|old(trail)|..] == done;
          return;
        }
        RunSnoc(old(objects), done, Delete(keys[i]));
        done := done + [Delete(keys[i])];
        i := i + 1;
      }
      assert trail[|old(trail)|..] == done;
    }

    /** The root steps of one call: every write, then every deletion. */
    method ReplaceRoot(files: seq<StagedFile>, listing: Listing) returns (alive: bool)
      requires listing.Ends()
      modifies this
      ensures var plan := RootSteps(listing.Served(), files);
              trail <= plan && objects == Run(old(objects), trail) && OldOrNew(old(objects), files, objects)
              && (alive <==> old(fuse) >= |plan|) && (alive ==> trail == plan) && fuse + |trail| == old(fuse)
    {
      hide Apply, Run, Writes, Superseded, OldOrNew;
      trail := [];
      var listed := ListPrefix(listing.answers, listing.pages);
      listed := Once(ServedKeys(listed));
      ghost var plan := RootSteps(listed, files);
      var superseded;
      NothingRun(objects);
      alive, superseded := WriteFiles(files, listed);
      assert trail <= plan;
      label written:
      if alive {
        ghost var after := trail;
        alive := DeleteAll(superseded);
        assert trail == after + trail[|after|..];
        RunAppend(old(objects), after, trail[|after|..]);
      }
      EveryPrefixOldOrNew(old(objects), listed, files, |trail|);
      assert plan[..|trail|] == trail;
    }

    method Activate(input: ActivateInput, around: Around) returns (r: Outcome)
      requires around.listing.Some? ==> around.listing.value.Ends()
      modifies this
      ensures !ReachesRoot(env, input, around) ==> Refused(env, input, around, r) && objects == old(objects)
      ensures objects != old(objects) ==> ReachesRoot(env, input, around)
      ensures EndsEarly(env, input, around).None? <==> ReachesRoot(env, input, around)
      ensures EndsEarly(env, input, around).None? ==>
                var files, plan, pointer := FilesOf(input).value, Plan(env, input, around), PointerObject(env, input);
                var before := ObjectAt(old(objects), GENERATION_MARKER_KEY);
                var condition := ConditionFor(around.head.value);
                var refused := around.honours && !Accepts(condition, env.etagOf, before);
                objects == Run(old(objects), trail) && trail <= plan + [Put(GENERATION_MARKER_KEY, pointer)]
                && (|trail| <= |plan| ==> OldOrNew(old(objects), files, objects))
                && (old(fuse) >= |plan| ==> plan <= trail)
                && (trail == plan ==> Replaced(old(objects), around.listing.value.Served(), files, objects, before))
                && (|trail| > |plan| ==> Replaced(old(objects), around.listing.value.Served(), files, objects, Some(pointer)))
                && r == (if old(fuse) < |plan| then Err(ProviderCallFailed)
                         else if !env.markerValid(MarkerOf(env, input)) then Err(MarkerInvalid)
                         else if refused then Ok(Reconcile(input.generationId, around.served.value, true))
                         else if old(fuse) == |plan| || around.confirmed.None? then Err(ProviderCallFailed)
                         else if around.confirmed.value != Some(input.generationId) then Err(ActivationUnconfirmed)
                         else Ok(Decision.Activate(input.generationId, around.served.value, false)))
                && (|trail| > |plan| <==> old(fuse) > |plan| && env.markerValid(MarkerOf(env, input)) && !refused)
    {
      hide Run, RootSteps, OldOrNew, Replaced, SpacesDigest, RequireGenerationFence, FenceDisagrees, Accepts, SpacesMarkerBytes;
      hide ReachesRoot, Refused;
      EarlyAnswers(env, input, around);
      trail := [];
      NothingRun(objects);
      var fence := RequireGenerationFence(input.expectedCurrent);
      if fence.None? {
        return Err(FenceInvalid);
      }
      if around.served.None? {
        return Err(PublicReadFailed);
      }
      var previous := around.served.value;
      if previous == Some(input.generationId) {
        return Ok(Decision.Activate(input.generationId, previous, true));
      }
      if FenceDisagrees(fence.value, previous) {
        return Ok(Reconcile(input.generationId, previous, false));
      }
      if FilesOf(input).None? {
        return Err(StageNotFound);
      }
      if ArtifactIdOf(input).None? {
        return Err(ActivationIdentityUnavailable);
      }
      var files := FilesOf(input).value;
      if input.expectedDigest.Some? && SpacesDigest(env.sha, files) != input.expectedDigest.value {
        return Err(StageIntegrityMismatch);
      }
      if around.head.None? || around.listing.None? {
        return Err(ProviderCallFailed);
      }
      var alive := ReplaceRoot(files, around.listing.value);
      if !alive {
        return Err(ProviderCallFailed);
      }
      ghost var plan := Plan(env, input, around);
      var marker := MarkerOf(env, input);
      PointerLast(old(objects), around.listing.value.Served(), files, PointerObject(env, input));
      if !env.markerValid(marker) {
        return Err(MarkerInvalid);
      }
      var pointer := Object(SpacesMarkerBytes(marker), false);
      PointerUntouched(old(objects), around.listing.value.Served(), files, objects, ObjectAt(old(objects), GENERATION_MARKER_KEY));
      var condition := ConditionFor(around.head.value);
      if around.honours && !Accepts(condition, env.etagOf, ObjectAt(objects, GENERATION_MARKER_KEY)) {
        return Ok(PointerLost(input.generationId, previous));
      }
      RunSnoc(old(objects), trail, Put(GENERATION_MARKER_KEY, pointer));
      alive := PutObject(GENERATION_MARKER_KEY, pointer);
      if !alive || around.confirmed.None? {
        return Err(ProviderCallFailed);
      }
      if around.confirmed.value != Some(input.generationId) {
        return Err(ActivationUnconfirmed);
      }
      r := Ok(PointerWon(input.generationId, previous));
    }
  }

  lemma PointerUntouched(bucket: Bucket, listed: seq<Text>, files: seq<StagedFile>, now: Bucket, pointer: Option<Object>)
    requires Replaced(bucket, listed, files, now, pointer)
    ensures ObjectAt(now, GENERATION_MARKER_KEY) == pointer
  {
  }

  lemma NothingRun(bucket: Bucket)
    ensures Run(bucket, []) == bucket
  {
  }

  /** What the whole call leaves before and after its pointer write. */
  lemma PointerLast(bucket: Bucket, listed: seq<Text>, files: seq<StagedFile>, pointer: Object)
    requires GENERATION_MARKER_KEY !in listed
    ensures var steps := RootSteps(listed, files);
            Replaced(bucket, listed, files, Run(bucket, steps), ObjectAt(bucket, GENERATION_MARKER_KEY))
            && Replaced(bucket, listed, files, Run(bucket, steps + [Put(GENERATION_MARKER_KEY, pointer)]), Some(pointer))
  {
    hide Run, RootSteps, NewObject;
    RootReplaced(bucket, listed, files);
    RunSnoc(bucket, RootSteps(listed, files), Put(GENERATION_MARKER_KEY, pointer));
  }

  lemma SinceThen(before: seq<Step>, done: seq<Step>)
    ensures (before + done)[|before|..] == done
  {
  }

  lemma NothingWritten(listed: seq<Text>, files: seq<StagedFile>)
    requires files == []
    ensures Writes(files) == [] && Superseded(listed, files) == listed
  {
  }

  lemma SupersededGrows(listed: seq<Text>, files: seq<StagedFile>, i: nat)
    requires i < |files|
    ensures Superseded(listed, files[..i + 1]) ==
            if files[i].key == GENERATION_MARKER_KEY then Superseded(listed, files[..i])
            else Without(Superseded(listed, files[..i]), files[i].key)
  {
    assert files[..i + 1][..i] == files[..i];
  }

  lemma {:induction false} WritesGrow(files: seq<StagedFile>, i: nat)
    requires i < |files|
    ensures Writes(files[..i + 1]) ==
            Writes(files[..i]) + (if files[i].key == GENERATION_MARKER_KEY then [] else [Put(files[i].key, files[i].val)])
    ensures Writes(files[..i + 1]) <= Writes(files)
    decreases |files| - i
  {
    assert files[..i + 1][..i] == files[..i];
    if i + 1 < |files| {
      WritesGrow(files, i + 1);
    } else {
      assert files[..i + 1] == files;
    }
  }
}
