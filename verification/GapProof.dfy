/**
 The run-attempt gap proof: one tombstone for every attempt strictly between the prior and
 the claiming one, and the validation, which accepts as data exactly the proof that would be
 built and the same proof with the run identifier spelled as a number.
 */
module GapProof {
  import opened Wrappers
  import opened Utf16
  import opened Json
  import opened CanonicalJson
  import opened Utf8
  import opened Digest
  import opened OrderedMap

  const PROFILE: Text := [0x70, 0x72, 0x6F, 0x66, 0x69, 0x6C, 0x65]
  const RUN_ID: Text := [0x72, 0x75, 0x6E, 0x49, 0x64]
  const PRIOR: Text := [0x70, 0x72, 0x69, 0x6F, 0x72, 0x52, 0x75, 0x6E, 0x41, 0x74, 0x74, 0x65, 0x6D, 0x70, 0x74]
  const CLAIMING: Text := [0x63, 0x6C, 0x61, 0x69, 0x6D, 0x69, 0x6E, 0x67, 0x52, 0x75, 0x6E, 0x41, 0x74, 0x74, 0x65, 0x6D, 0x70, 0x74]
  const INTERVENING: Text := [0x69, 0x6E, 0x74, 0x65, 0x72, 0x76, 0x65, 0x6E, 0x69, 0x6E, 0x67, 0x41, 0x74, 0x74, 0x65, 0x6D, 0x70, 0x74, 0x73]
  const PROOF_DIGEST: Text := [0x70, 0x72, 0x6F, 0x6F, 0x66, 0x44, 0x69, 0x67, 0x65, 0x73, 0x74]
  const RUN_ATTEMPT: Text := [0x72, 0x75, 0x6E, 0x41, 0x74, 0x74, 0x65, 0x6D, 0x70, 0x74]
  const AUTHORITY_STATE: Text := [0x61, 0x75, 0x74, 0x68, 0x6F, 0x72, 0x69, 0x74, 0x79, 0x53, 0x74, 0x61, 0x74, 0x65]
  const DECISION_DIGEST: Text := [0x64, 0x65, 0x63, 0x69, 0x73, 0x69, 0x6F, 0x6E, 0x44, 0x69, 0x67, 0x65, 0x73, 0x74]
  const REPOSITORY_ID: Text := [0x72, 0x65, 0x70, 0x6F, 0x73, 0x69, 0x74, 0x6F, 0x72, 0x79, 0x49, 0x64]

  /** `gala-pages-run-attempt-gap-proof-v2` */
  const GAP_PROOF_PROFILE: Text := [0x67, 0x61, 0x6C, 0x61, 0x2D, 0x70, 0x61, 0x67, 0x65, 0x73, 0x2D, 0x72, 0x75, 0x6E, 0x2D, 0x61, 0x74, 0x74, 0x65, 0x6D, 0x70, 0x74, 0x2D, 0x67, 0x61, 0x70, 0x2D, 0x70, 0x72, 0x6F, 0x6F, 0x66, 0x2D, 0x76, 0x32]
  /** `closed-no-destination-authority` */
  const NO_AUTHORITY_STATE: Text := [0x63, 0x6C, 0x6F, 0x73, 0x65, 0x64, 0x2D, 0x6E, 0x6F, 0x2D, 0x64, 0x65, 0x73, 0x74, 0x69, 0x6E, 0x61, 0x74, 0x69, 0x6F, 0x6E, 0x2D, 0x61, 0x75, 0x74, 0x68, 0x6F, 0x72, 0x69, 0x74, 0x79]
  /** `GALA-PAGES-NO-AUTHORITY-RUN-ATTEMPT-V2` and its NUL. */
  const RUN_ATTEMPT_DOMAIN: Text := [0x47, 0x41, 0x4C, 0x41, 0x2D, 0x50, 0x41, 0x47, 0x45, 0x53, 0x2D, 0x4E, 0x4F, 0x2D, 0x41, 0x55, 0x54, 0x48, 0x4F, 0x52, 0x49, 0x54, 0x59, 0x2D, 0x52, 0x55, 0x4E, 0x2D, 0x41, 0x54, 0x54, 0x45, 0x4D, 0x50, 0x54, 0x2D, 0x56, 0x32, 0x00]
  /** `GALA-PAGES-RUN-ATTEMPT-GAP-PROOF-V2` and its NUL. */
  const GAP_PROOF_DOMAIN: Text := [0x47, 0x41, 0x4C, 0x41, 0x2D, 0x50, 0x41, 0x47, 0x45, 0x53, 0x2D, 0x52, 0x55, 0x4E, 0x2D, 0x41, 0x54, 0x54, 0x45, 0x4D, 0x50, 0x54, 0x2D, 0x47, 0x41, 0x50, 0x2D, 0x50, 0x52, 0x4F, 0x4F, 0x46, 0x2D, 0x56, 0x32, 0x00]

  const PRIOR_MINIMUM := 1
  const PRIOR_MAXIMUM := 50
  const CLAIMING_MINIMUM := 2
  const CLAIMING_MAXIMUM := 51

  const EXPECTED_MEMBERS: seq<Text> := [CLAIMING, INTERVENING, PRIOR, PROFILE, PROOF_DIGEST, RUN_ID]

  // ---- Objects looked up by name ----

  lemma FindInSame(a: seq<Keyed<JsValue>>, b: seq<Keyed<JsValue>>, name: Text)
    requires Same(JsObject(true, a), JsObject(true, b)) && DistinctKeys(a) && DistinctKeys(b)
    requires Find(b, name).Some? && !Find(b, name).value.JsUndefined?
    ensures Find(a, name).Some? && Same(Find(a, name).value, Find(b, name).value)
  {
    hide Find;
    FindMeans(a, name);
    FindMeans(b, name);
    var m := Keyed(name, Find(b, name).value);
    var j :| 0 <= j < |b| && b[j] == m;
    assert Covered(a, b[j]);
    var i :| 0 <= i < |a| && a[i].key == m.key && Same(a[i].val, m.val);
    assert a[i] == Keyed(name, a[i].val);
  }

  lemma SameByFinds(a: seq<Keyed<JsValue>>, b: seq<Keyed<JsValue>>)
    requires DistinctKeys(a) && DistinctKeys(b)
    requires forall i :: 0 <= i < |a| ==> Find(b, a[i].key).Some? && Same(a[i].val, Find(b, a[i].key).value)
    requires forall j :: 0 <= j < |b| ==> Find(a, b[j].key).Some? && Same(Find(a, b[j].key).value, b[j].val)
    ensures Same(JsObject(true, a), JsObject(true, b))
  {
    hide Find;
    forall i | 0 <= i < |a| ensures FoundIn(a[i], b) {
      FindMeans(b, a[i].key);
      var w := Find(b, a[i].key).value;
      assert Keyed(a[i].key, w) in b;
      var j :| 0 <= j < |b| && b[j] == Keyed(a[i].key, w);
    }
    forall j | 0 <= j < |b| ensures Covered(a, b[j]) {
      FindMeans(a, b[j].key);
      var v := Find(a, b[j].key).value;
      assert Keyed(b[j].key, v) in a;
      var i :| 0 <= i < |a| && a[i] == Keyed(b[j].key, v);
    }
    hide FoundIn, Covered;
  }

  // ---- Tombstones ----

  lemma {:induction false} DecimalDigits(n: nat)
    ensures Decimal(n) != [] && forall i :: 0 <= i < |Decimal(n)| ==> IsDigit(Decimal(n)[i])
    ensures n > 0 ==> Decimal(n)[0] != 0x30
  {
    if n >= 10 {
      DecimalDigits(n / 10);
    }
  }

  lemma {:induction false} AllDigits(t: Text)
    requires forall i :: 0 <= i < |t| ==> IsDigit(t[i])
    ensures DigitRun(t) == |t|
  {
    if t != [] {
      AllDigits(t[1..]);
    }
  }

  lemma DecimalIsToken(n: nat)
    ensures IsNumberToken(Decimal(n))
  {
    var t := Decimal(n);
    DecimalDigits(n);
    AllDigits(t);
    assert t[0..] == t && t[|t|..] == [];
    if n == 0 {
      assert t == [0x30];
    }
  }

  lemma {:induction false} DecimalDecides(m: nat, n: nat)
    requires Decimal(m) == Decimal(n)
    ensures m == n
  {
    var s, t := Decimal(m), Decimal(n);
    if m >= 10 || n >= 10 {
      DecimalDigits(m / 10);
      DecimalDigits(n / 10);
      assert m >= 10 && n >= 10;
      assert s[..|s| - 1] == Decimal(m / 10) && t[..|t| - 1] == Decimal(n / 10);
      DecimalDecides(m / 10, n / 10);
      assert s[|s| - 1] == 0x30 + m % 10 && t[|t| - 1] == 0x30 + n % 10;
    }
  }

  function RunAttemptValue(repositoryId: Text, runId: Text, runAttempt: nat): JsValue {
    JsObject(true, [
      Keyed(REPOSITORY_ID, JsString(repositoryId)),
      Keyed(RUN_ID, JsString(runId)),
      Keyed(RUN_ATTEMPT, JsNumber(Decimal(runAttempt))),
      Keyed(AUTHORITY_STATE, JsString(NO_AUTHORITY_STATE))])
  }

  lemma LeafPrints(v: JsValue)
    requires v.JsString? || (v.JsNumber? && IsNumberToken(v.token))
    ensures Canonicalize(v).Some? && WellFormed(v)
  {
  }

  lemma FlatPrints(members: seq<Keyed<JsValue>>)
    requires DistinctKeys(members)
    requires forall i :: 0 <= i < |members| ==> Canonicalize(members[i].val).Some? && WellFormed(members[i].val)
    ensures Canonicalize(JsObject(true, members)).Some? && WellFormed(JsObject(true, members))
  {
    hide Canonicalize, CanonicalMembers;
    MembersSucceed(members);
    ObjectPrints(members);
  }

  lemma ObjectPrints(members: seq<Keyed<JsValue>>)
    ensures Canonicalize(JsObject(true, members)).Some? <==> CanonicalMembers(members).Some?
  {
  }

  lemma RunAttemptPrints(repositoryId: Text, runId: Text, runAttempt: nat)
    ensures Canonicalize(RunAttemptValue(repositoryId, runId, runAttempt)).Some?
    ensures WellFormed(RunAttemptValue(repositoryId, runId, runAttempt))
  {
    hide Canonicalize, WellFormed;
    var members := RunAttemptValue(repositoryId, runId, runAttempt).members;
    assert |REPOSITORY_ID| == 12 && |RUN_ID| == 5 && |RUN_ATTEMPT| == 10 && |AUTHORITY_STATE| == 14;
    DecimalIsToken(runAttempt);
    forall i | 0 <= i < |members| ensures Canonicalize(members[i].val).Some? && WellFormed(members[i].val) {
      LeafPrints(members[i].val);
    }
    FlatPrints(members);
  }

  /** `computeInterveningAttemptDigest`. */
  function DecisionDigest(sha: Sha, repositoryId: Text, runId: Text, runAttempt: nat): Text {
    RunAttemptPrints(repositoryId, runId, runAttempt);
    DomainDigest(sha, RUN_ATTEMPT_DOMAIN, RunAttemptValue(repositoryId, runId, runAttempt)).value
  }

  function Tombstone(sha: Sha, repositoryId: Text, runId: Text, runAttempt: nat): JsValue {
    JsObject(true, [
      Keyed(RUN_ATTEMPT, JsNumber(Decimal(runAttempt))),
      Keyed(AUTHORITY_STATE, JsString(NO_AUTHORITY_STATE)),
      Keyed(DECISION_DIGEST, JsString(DecisionDigest(sha, repositoryId, runId, runAttempt)))])
  }

  lemma TombstonePrints(sha: Sha, repositoryId: Text, runId: Text, runAttempt: nat)
    ensures Canonicalize(Tombstone(sha, repositoryId, runId, runAttempt)).Some?
    ensures WellFormed(Tombstone(sha, repositoryId, runId, runAttempt))
  {
    hide Canonicalize, WellFormed, DecisionDigest;
    var members := Tombstone(sha, repositoryId, runId, runAttempt).members;
    assert |RUN_ATTEMPT| == 10 && |AUTHORITY_STATE| == 14 && |DECISION_DIGEST| == 14 && AUTHORITY_STATE[0] != DECISION_DIGEST[0];
    DecimalIsToken(runAttempt);
    forall i | 0 <= i < |members| ensures Canonicalize(members[i].val).Some? && WellFormed(members[i].val) {
      LeafPrints(members[i].val);
    }
    FlatPrints(members);
  }

  /** What `f` gives for each number strictly between two, in order. */
  function EachBetween(f: nat -> JsValue, prior: nat, claiming: nat): (r: seq<JsValue>)
    requires prior < claiming
    ensures |r| == claiming - prior - 1 && forall i :: 0 <= i < |r| ==> r[i] == f(prior + 1 + i)
  {
    seq(claiming - prior - 1, i requires 0 <= i < claiming - prior - 1 => f(prior + 1 + i))
  }

  /** One tombstone for every attempt after `prior` and before `claiming`, in order. */
  function Rows(sha: Sha, repositoryId: Text, runId: Text, prior: nat, claiming: nat): (rows: seq<JsValue>)
    requires prior < claiming
    ensures |rows| == claiming - prior - 1
  {
    EachBetween((n: nat) => Tombstone(sha, repositoryId, runId, n), prior, claiming)
  }

  lemma RowsAt(sha: Sha, repositoryId: Text, runId: Text, prior: nat, claiming: nat)
    requires prior < claiming
    ensures var rows := Rows(sha, repositoryId, runId, prior, claiming);
            forall i :: 0 <= i < |rows| ==> rows[i] == Tombstone(sha, repositoryId, runId, prior + 1 + i)
  {
    hide Tombstone;
  }

  /** `buildInterveningAttempts`; `None` where the coordinates are refused. */
  method BuildInterveningAttempts(sha: Sha, repositoryId: Text, runId: Text, prior: int, claiming: int)
      returns (rows: Option<seq<JsValue>>)
    ensures rows.Some? <==> PRIOR_MINIMUM <= prior <= PRIOR_MAXIMUM && CLAIMING_MINIMUM <= claiming <= CLAIMING_MAXIMUM && prior < claiming
    ensures rows.Some? ==> rows.value == Rows(sha, repositoryId, runId, prior, claiming)
  {
    hide Tombstone;
    if !(PRIOR_MINIMUM <= prior <= PRIOR_MAXIMUM) || !(CLAIMING_MINIMUM <= claiming <= CLAIMING_MAXIMUM) || claiming <= prior {
      return None;
    }
    var found: seq<JsValue> := [];
    var runAttempt := prior + 1;
    while runAttempt < claiming
      invariant prior + 1 <= runAttempt <= claiming && |found| == runAttempt - prior - 1
      invariant forall i :: 0 <= i < |found| ==> found[i] == Tombstone(sha, repositoryId, runId, prior + 1 + i)
    {
      found := found + [Tombstone(sha, repositoryId, runId, runAttempt)];
      runAttempt := runAttempt + 1;
    }
    RowsAt(sha, repositoryId, runId, prior, claiming);
    rows := Some(found);
  }

  // ---- The proof record ----

  /** The two coordinates and the run identifier as the record spells it. */
  datatype Fence = Fence(runId: JsValue, prior: nat, claiming: nat)

  /** `GITHUB_POSITIVE_DECIMAL`. */
  predicate IsPositiveDecimal(t: Text) {
    1 <= |t| <= 19 && t[0] != 0x30 && forall i :: 0 <= i < |t| ==> IsDigit(t[i])
  }

  /** The text of a run identifier spelled as a number or as a string. */
  function RunIdText(v: JsValue): Option<Text> {
    if v.JsNumber? && IsPositiveDecimal(v.token) then Some(v.token)
    else if v.JsString? && IsPositiveDecimal(v.s) then Some(v.s)
    else None
  }

  /** The integer in `lo..hi` a number token spells. */
  function IntegerIn(v: JsValue, lo: nat, hi: nat): Option<nat>
    decreases hi + 1 - lo
  {
    if lo > hi || !v.JsNumber? then None
    else if v.token == Decimal(lo) then Some(lo)
    else IntegerIn(v, lo + 1, hi)
  }

  lemma {:induction false} IntegerInMeans(v: JsValue, lo: nat, hi: nat, n: nat)
    ensures IntegerIn(v, lo, hi) == Some(n) <==> lo <= n <= hi && v == JsNumber(Decimal(n))
    decreases hi + 1 - lo
  {
    hide Decimal;
    if lo <= hi && v.JsNumber? {
      if v.token == Decimal(lo) {
        if v.token == Decimal(n) {
          DecimalDecides(lo, n);
        }
      } else {
        IntegerInMeans(v, lo + 1, hi, n);
      }
    }
  }

  predicate FenceAllowed(f: Fence) {
    RunIdText(f.runId).Some? && PRIOR_MINIMUM <= f.prior <= PRIOR_MAXIMUM
    && CLAIMING_MINIMUM <= f.claiming <= CLAIMING_MAXIMUM && f.prior < f.claiming
  }

  function WithoutDigest(sha: Sha, repositoryId: Text, f: Fence): seq<Keyed<JsValue>>
    requires FenceAllowed(f)
  {
    [Keyed(PROFILE, JsString(GAP_PROOF_PROFILE)),
     Keyed(RUN_ID, f.runId),
     Keyed(PRIOR, JsNumber(Decimal(f.prior))),
     Keyed(CLAIMING, JsNumber(Decimal(f.claiming))),
     Keyed(INTERVENING, JsArray(Rows(sha, repositoryId, RunIdText(f.runId).value, f.prior, f.claiming)))]
  }

  lemma RunIdPrints(v: JsValue)
    requires RunIdText(v).Some?
    ensures Canonicalize(v).Some? && WellFormed(v) && !v.JsUndefined?
  {
    var t := RunIdText(v).value;
    AllDigits(t);
    assert t[0..] == t && t[|t|..] == [];
    assert IsNumberToken(t);
  }

  lemma {:induction false} ItemsSucceed(items: seq<JsValue>)
    requires forall i :: 0 <= i < |items| ==> Canonicalize(items[i]).Some?
    ensures CanonicalItems(items).Some?
  {
    hide Canonicalize;
    if items != [] {
      ItemsSucceed(items[1..]);
    }
  }

  lemma ArrayPrintsIff(items: seq<JsValue>)
    ensures Canonicalize(JsArray(items)).Some? <==> CanonicalItems(items).Some?
    ensures (forall i :: 0 <= i < |items| ==> WellFormed(items[i])) <==> WellFormed(JsArray(items))
  {
  }

  lemma RowsPrint(sha: Sha, repositoryId: Text, runId: Text, prior: nat, claiming: nat)
    requires prior < claiming
    ensures Canonicalize(JsArray(Rows(sha, repositoryId, runId, prior, claiming))).Some?
    ensures WellFormed(JsArray(Rows(sha, repositoryId, runId, prior, claiming)))
  {
    hide Canonicalize, WellFormed, Tombstone, CanonicalItems;
    var rows := Rows(sha, repositoryId, runId, prior, claiming);
    RowsAt(sha, repositoryId, runId, prior, claiming);
    forall i | 0 <= i < |rows| ensures Canonicalize(rows[i]).Some? && WellFormed(rows[i]) {
      TombstonePrints(sha, repositoryId, runId, prior + 1 + i);
    }
    ItemsSucceed(rows);
    ArrayPrintsIff(rows);
  }

  lemma NamesApart()
    ensures |PROFILE| == 7 && |RUN_ID| == 5 && |PRIOR| == 15 && |CLAIMING| == 18 && |INTERVENING| == 19 && |PROOF_DIGEST| == 11
  {
  }

  lemma WithoutDigestPrints(sha: Sha, repositoryId: Text, f: Fence)
    requires FenceAllowed(f)
    ensures Canonicalize(JsObject(true, WithoutDigest(sha, repositoryId, f))).Some?
    ensures WellFormed(JsObject(true, WithoutDigest(sha, repositoryId, f)))
  {
    hide Canonicalize, WellFormed, WithoutDigest;
    var members := WithoutDigest(sha, repositoryId, f);
    WithoutDigestDistinct(sha, repositoryId, f);
    forall i | 0 <= i < |members| ensures Canonicalize(members[i].val).Some? && WellFormed(members[i].val) {
      WithoutDigestValue(sha, repositoryId, f, i);
    }
    FlatPrints(members);
  }

  lemma WithoutDigestDistinct(sha: Sha, repositoryId: Text, f: Fence)
    requires FenceAllowed(f)
    ensures |WithoutDigest(sha, repositoryId, f)| == 5 && DistinctKeys(WithoutDigest(sha, repositoryId, f))
  {
    hide Rows, RunIdText, Decimal, PROFILE, RUN_ID, PRIOR, CLAIMING, INTERVENING;
    NamesApart();
  }

  lemma WithoutDigestValue(sha: Sha, repositoryId: Text, f: Fence, i: nat)
    requires FenceAllowed(f) && i < |WithoutDigest(sha, repositoryId, f)|
    ensures var v := WithoutDigest(sha, repositoryId, f)[i].val; Canonicalize(v).Some? && WellFormed(v)
  {
    hide Canonicalize, WellFormed, Rows, RunIdText, Decimal, PROFILE, RUN_ID, PRIOR, CLAIMING, INTERVENING;
    var v := WithoutDigest(sha, repositoryId, f)[i].val;
    if i == 1 {
      RunIdPrints(f.runId);
    } else if i == 4 {
      RowsPrint(sha, repositoryId, RunIdText(f.runId).value, f.prior, f.claiming);
    } else {
      DecimalIsToken(f.prior);
      DecimalIsToken(f.claiming);
      LeafPrints(v);
    }
  }

  /** `computeGapProofDigest` of a record's members with the digest itself left out. */
  function ProofDigest(sha: Sha, rest: seq<Keyed<JsValue>>): Option<Text> {
    DomainDigest(sha, GAP_PROOF_DOMAIN, JsObject(true, rest))
  }

  /** The complete record with the run identifier spelled as the fence spells it. */
  function Spelled(sha: Sha, repositoryId: Text, f: Fence): seq<Keyed<JsValue>>
    requires FenceAllowed(f)
  {
    WithoutDigestPrints(sha, repositoryId, f);
    var rest := WithoutDigest(sha, repositoryId, f);
    rest + [Keyed(PROOF_DIGEST, JsString(ProofDigest(sha, rest).value))]
  }

  // ---- Validation ----

  datatype GapFailure =
    | GapProofInvalid
    | RecordInvalid
    | RunAttemptFenceInvalid
    | GapProofIncomplete
    | GapProofDigestMismatch
    | NotCanonical

  /** The value of a property; undefined when there is none. */
  function Get(members: seq<Keyed<JsValue>>, name: Text): JsValue {
    if Find(members, name).Some? then Find(members, name).value else JsUndefined
  }

  /** The sorted property names are the six expected ones. */
  predicate ExpectedKeys(members: seq<Keyed<JsValue>>) {
    |Sort(members)| == 6 && forall i :: 0 <= i < 6 ==> Sort(members)[i].key == EXPECTED_MEMBERS[i]
  }

  /** The first row whose text is not its tombstone's. */
  function RowFailure(rows: seq<JsValue>, expected: seq<JsValue>): Option<GapFailure>
    requires |rows| == |expected|
  {
    if rows == [] then None
    else if Canonicalize(rows[0]).None? then Some(NotCanonical)
    else if Canonicalize(rows[0]) != Canonicalize(expected[0]) then Some(GapProofIncomplete)
    else RowFailure(rows[1..], expected[1..])
  }

  /** `validateRunAttemptGapProof`. */
  function Validate(sha: Sha, repositoryId: Text, record: JsValue): Result<Fence, GapFailure> {
    if !record.JsObject? || !ExpectedKeys(record.members) then Err(GapProofInvalid)
    else
      var m := record.members;
      var prior := IntegerIn(Get(m, PRIOR), PRIOR_MINIMUM, PRIOR_MAXIMUM);
      var claiming := IntegerIn(Get(m, CLAIMING), CLAIMING_MINIMUM, CLAIMING_MAXIMUM);
      var rows := Get(m, INTERVENING);
      if Get(m, PROFILE) != JsString(GAP_PROOF_PROFILE) then Err(GapProofInvalid)
      else if RunIdText(Get(m, RUN_ID)).None? || prior.None? || claiming.None? then Err(RecordInvalid)
      else if claiming.value <= prior.value then Err(RunAttemptFenceInvalid)
      else if !rows.JsArray? then Err(GapProofInvalid)
      else
        var expected := Rows(sha, repositoryId, RunIdText(Get(m, RUN_ID)).value, prior.value, claiming.value);
        if |rows.items| != |expected| then Err(GapProofIncomplete)
        else if RowFailure(rows.items, expected).Some? then Err(RowFailure(rows.items, expected).value)
        else
          var digest := ProofDigest(sha, Delete(m, PROOF_DIGEST));
          if digest.None? then Err(NotCanonical)
          else if Get(m, PROOF_DIGEST) != JsString(digest.value) then Err(GapProofDigestMismatch)
          else Ok(Fence(Get(m, RUN_ID), prior.value, claiming.value))
  }

  lemma {:induction false} RowsAgree(rows: seq<JsValue>, expected: seq<JsValue>)
    requires |rows| == |expected|
    requires forall i :: 0 <= i < |rows| ==> WellFormed(rows[i]) && WellFormed(expected[i]) && Canonicalize(expected[i]).Some?
    ensures RowFailure(rows, expected).None? <==>
              forall i :: 0 <= i < |rows| ==> Canonicalize(rows[i]).Some? && Same(rows[i], expected[i])
  {
    hide Canonicalize, Same, WellFormed;
    if rows != [] {
      RowsAgree(rows[1..], expected[1..]);
      HeadAndTail(rows);
      HeadAndTail(expected);
      if Canonicalize(rows[0]).Some? {
        TextDecidesData(rows[0], expected[0]);
      }
      assert forall i :: 0 < i < |rows| ==> rows[1..][i - 1] == rows[i] && expected[1..][i - 1] == expected[i];
    }
  }

  // ---- Accepted is built ----

  lemma KeysFound(members: seq<Keyed<JsValue>>)
    requires ExpectedKeys(members) && DistinctKeys(members)
    ensures forall i :: 0 <= i < |members| ==>
              members[i].key in EXPECTED_MEMBERS && Find(members, members[i].key) == Some(members[i].val)
    ensures forall i :: 0 <= i < 6 ==> Find(members, EXPECTED_MEMBERS[i]).Some?
  {
    hide Find, Sort, EXPECTED_MEMBERS;
    var sorted := Sort(members);
    SortContents(members);
    SixNames();
    forall i | 0 <= i < |members|
      ensures members[i].key in EXPECTED_MEMBERS && Find(members, members[i].key) == Some(members[i].val)
    {
      assert members[i] in multiset(sorted);
      var j :| 0 <= j < |sorted| && sorted[j] == members[i];
      assert members[i].key == EXPECTED_MEMBERS[j];
      FindMeans(members, members[i].key);
      assert members[i] == Keyed(members[i].key, members[i].val);
    }
    forall i | 0 <= i < 6 ensures Find(members, EXPECTED_MEMBERS[i]).Some? {
      assert sorted[i] in multiset(members);
      FindMeans(members, EXPECTED_MEMBERS[i]);
      assert sorted[i] == Keyed(EXPECTED_MEMBERS[i], sorted[i].val);
    }
  }

  lemma SixNames()
    ensures |EXPECTED_MEMBERS| == 6
  {
  }

  /** The six values are the built ones. */
  ghost predicate SixSame(members: seq<Keyed<JsValue>>, sha: Sha, repositoryId: Text, f: Fence)
    requires FenceAllowed(f)
  {
    Get(members, PROFILE) == JsString(GAP_PROOF_PROFILE)
    && Get(members, RUN_ID) == f.runId
    && Get(members, PRIOR) == JsNumber(Decimal(f.prior))
    && Get(members, CLAIMING) == JsNumber(Decimal(f.claiming))
    && Same(Get(members, INTERVENING), JsArray(Rows(sha, repositoryId, RunIdText(f.runId).value, f.prior, f.claiming)))
    && Get(members, PROOF_DIGEST) == JsString(ProofDigestOf(sha, repositoryId, f))
  }

  function ProofDigestOf(sha: Sha, repositoryId: Text, f: Fence): Text
    requires FenceAllowed(f)
  {
    WithoutDigestPrints(sha, repositoryId, f);
    ProofDigest(sha, WithoutDigest(sha, repositoryId, f)).value
  }

  lemma SameLeaf(v: JsValue, w: JsValue)
    requires w.JsString? || (w.JsNumber? && w.token != ZERO_TEXT)
    ensures Same(v, w) <==> v == w
  {
  }

  lemma PositiveLeaves(f: Fence)
    requires FenceAllowed(f)
    ensures f.runId.JsString? || (f.runId.JsNumber? && f.runId.token != ZERO_TEXT)
    ensures Decimal(f.prior) != ZERO_TEXT && Decimal(f.claiming) != ZERO_TEXT
  {
    DecimalDigits(f.prior);
    DecimalDigits(f.claiming);
  }

  lemma RestFinds(sha: Sha, repositoryId: Text, f: Fence)
    requires FenceAllowed(f)
    ensures var rest := WithoutDigest(sha, repositoryId, f);
            DistinctKeys(rest)
            && Find(rest, PROFILE) == Some(JsString(GAP_PROOF_PROFILE))
            && Find(rest, RUN_ID) == Some(f.runId)
            && Find(rest, PRIOR) == Some(JsNumber(Decimal(f.prior)))
            && Find(rest, CLAIMING) == Some(JsNumber(Decimal(f.claiming)))
            && Find(rest, INTERVENING) == Some(JsArray(Rows(sha, repositoryId, RunIdText(f.runId).value, f.prior, f.claiming)))
            && Find(rest, PROOF_DIGEST).None?
  {
    hide Find, Rows, RunIdText, Decimal, PROFILE, RUN_ID, PRIOR, CLAIMING, INTERVENING, PROOF_DIGEST;
    var rest := WithoutDigest(sha, repositoryId, f);
    NamesApart();
    assert DistinctKeys(rest);
    FindMeans(rest, PROFILE);
    FindMeans(rest, RUN_ID);
    FindMeans(rest, PRIOR);
    FindMeans(rest, CLAIMING);
    FindMeans(rest, INTERVENING);
    NotFound(rest, PROOF_DIGEST);
    assert rest[0] in rest && rest[1] in rest && rest[2] in rest && rest[3] in rest && rest[4] in rest;
  }

  lemma {:induction false} FindAppend<T>(a: seq<Keyed<T>>, b: seq<Keyed<T>>, key: Text)
    ensures Find(a + b, key) == if Find(a, key).Some? then Find(a, key) else Find(b, key)
  {
    if a == [] {
      assert a + b == b;
    } else {
      FindAppend(a[1..], b, key);
      assert (a + b)[1..] == a[1..] + b;
    }
  }

  lemma SpelledFinds(sha: Sha, repositoryId: Text, f: Fence, name: Text)
    requires FenceAllowed(f)
    ensures DistinctKeys(Spelled(sha, repositoryId, f))
    ensures Find(Spelled(sha, repositoryId, f), name) ==
            if name == PROOF_DIGEST then Some(JsString(ProofDigestOf(sha, repositoryId, f)))
            else Find(WithoutDigest(sha, repositoryId, f), name)
  {
    hide WithoutDigest, ProofDigest;
    hide PROFILE, RUN_ID, PRIOR, CLAIMING, INTERVENING, PROOF_DIGEST;
    var rest := WithoutDigest(sha, repositoryId, f);
    var last := Keyed(PROOF_DIGEST, JsString(ProofDigestOf(sha, repositoryId, f)));
    RestFinds(sha, repositoryId, f);
    FindAppend(rest, [last], name);
    assert [last][1..] == [];
    FindMeans(rest, PROOF_DIGEST);
    forall i | 0 <= i < |rest| ensures rest[i].key != PROOF_DIGEST {
      assert rest[i] == Keyed(rest[i].key, rest[i].val) && rest[i] in rest;
    }
  }

  /** One of the six names, and which. */
  lemma NameCases(name: Text)
    ensures name in EXPECTED_MEMBERS <==>
              name == PROFILE || name == RUN_ID || name == PRIOR || name == CLAIMING || name == INTERVENING || name == PROOF_DIGEST
  {
    var e := EXPECTED_MEMBERS;
    assert e[0] == CLAIMING && e[1] == INTERVENING && e[2] == PRIOR && e[3] == PROFILE && e[4] == PROOF_DIGEST && e[5] == RUN_ID;
  }

  /** The values under one name agree. */
  ghost predicate AgreeAt(a: seq<Keyed<JsValue>>, b: seq<Keyed<JsValue>>, name: Text) {
    Find(a, name).Some? && Find(b, name).Some? && Same(Find(a, name).value, Find(b, name).value)
  }

  lemma SixAgree(members: seq<Keyed<JsValue>>, sha: Sha, repositoryId: Text, f: Fence)
    requires FenceAllowed(f)
    requires forall i :: 0 <= i < 6 ==> Find(members, EXPECTED_MEMBERS[i]).Some?
    ensures SixSame(members, sha, repositoryId, f) <==>
              forall name :: name in EXPECTED_MEMBERS ==> AgreeAt(members, Spelled(sha, repositoryId, f), name)
  {
    hide Find, Rows, RunIdText, Decimal, Same, Spelled, WithoutDigest, ProofDigestOf, EXPECTED_MEMBERS;
    hide PROFILE, RUN_ID, PRIOR, CLAIMING, INTERVENING, PROOF_DIGEST, GAP_PROOF_PROFILE;
    RestFinds(sha, repositoryId, f);
    NamesApart();
    SixNames();
    PositiveLeaves(f);
    forall name ensures name in EXPECTED_MEMBERS <==>
              name == PROFILE || name == RUN_ID || name == PRIOR || name == CLAIMING || name == INTERVENING || name == PROOF_DIGEST {
      NameCases(name);
    }
    forall name | name in EXPECTED_MEMBERS ensures Find(members, name).Some? {
      var i :| 0 <= i < |EXPECTED_MEMBERS| && EXPECTED_MEMBERS[i] == name;
    }
    SpelledFinds(sha, repositoryId, f, PROFILE);
    SpelledFinds(sha, repositoryId, f, RUN_ID);
    SpelledFinds(sha, repositoryId, f, PRIOR);
    SpelledFinds(sha, repositoryId, f, CLAIMING);
    SpelledFinds(sha, repositoryId, f, INTERVENING);
    SpelledFinds(sha, repositoryId, f, PROOF_DIGEST);
    SameLeaf(Get(members, PROFILE), JsString(GAP_PROOF_PROFILE));
    SameLeaf(Get(members, RUN_ID), f.runId);
    SameLeaf(Get(members, PRIOR), JsNumber(Decimal(f.prior)));
    SameLeaf(Get(members, CLAIMING), JsNumber(Decimal(f.claiming)));
    SameLeaf(Get(members, PROOF_DIGEST), JsString(ProofDigestOf(sha, repositoryId, f)));
    var b := Spelled(sha, repositoryId, f);
    assert SixSame(members, sha, repositoryId, f) <==>
      AgreeAt(members, b, PROFILE) && AgreeAt(members, b, RUN_ID) && AgreeAt(members, b, PRIOR)
      && AgreeAt(members, b, CLAIMING) && AgreeAt(members, b, INTERVENING) && AgreeAt(members, b, PROOF_DIGEST);
  }

  lemma SpelledKeys(sha: Sha, repositoryId: Text, f: Fence, i: nat)
    requires FenceAllowed(f) && i < |Spelled(sha, repositoryId, f)|
    ensures Spelled(sha, repositoryId, f)[i].key in EXPECTED_MEMBERS
  {
    hide Rows, RunIdText, Decimal, ProofDigest, EXPECTED_MEMBERS;
    hide PROFILE, RUN_ID, PRIOR, CLAIMING, INTERVENING, PROOF_DIGEST;
    NameCases(Spelled(sha, repositoryId, f)[i].key);
  }

  lemma DefinedAtSix(sha: Sha, repositoryId: Text, f: Fence, name: Text)
    requires FenceAllowed(f) && name in EXPECTED_MEMBERS
    ensures Find(Spelled(sha, repositoryId, f), name).Some? && !Find(Spelled(sha, repositoryId, f), name).value.JsUndefined?
  {
    hide Find, Rows, RunIdText, Decimal, Spelled, WithoutDigest, ProofDigestOf, EXPECTED_MEMBERS;
    hide PROFILE, RUN_ID, PRIOR, CLAIMING, INTERVENING, PROOF_DIGEST;
    NameCases(name);
    RestFinds(sha, repositoryId, f);
    SpelledFinds(sha, repositoryId, f, name);
    PositiveLeaves(f);
  }

  lemma SameIsSix(members: seq<Keyed<JsValue>>, sha: Sha, repositoryId: Text, f: Fence)
    requires FenceAllowed(f) && ExpectedKeys(members) && DistinctKeys(members)
    ensures SixSame(members, sha, repositoryId, f) <==> Same(JsObject(true, members), JsObject(true, Spelled(sha, repositoryId, f)))
  {
    hide Find, Same, Spelled, EXPECTED_MEMBERS, SixSame, ExpectedKeys;
    var b := Spelled(sha, repositoryId, f);
    KeysFound(members);
    SixAgree(members, sha, repositoryId, f);
    SpelledFinds(sha, repositoryId, f, []);
    if Same(JsObject(true, members), JsObject(true, b)) {
      forall name | name in EXPECTED_MEMBERS ensures AgreeAt(members, b, name) {
        DefinedAtSix(sha, repositoryId, f, name);
        FindInSame(members, b, name);
      }
    }
    if SixSame(members, sha, repositoryId, f) {
      forall i | 0 <= i < |members| ensures Find(b, members[i].key).Some? && Same(members[i].val, Find(b, members[i].key).value) {
        assert AgreeAt(members, b, members[i].key);
      }
      forall j | 0 <= j < |b| ensures Find(members, b[j].key).Some? && Same(Find(members, b[j].key).value, b[j].val) {
        SpelledKeys(sha, repositoryId, f, j);
        assert AgreeAt(members, b, b[j].key);
        FindMeans(b, b[j].key);
        assert b[j] == Keyed(b[j].key, b[j].val);
      }
      SameByFinds(members, b);
    }
  }

  /** The record's other five values are the built ones. */
  ghost predicate FiveSame(members: seq<Keyed<JsValue>>, sha: Sha, repositoryId: Text, f: Fence)
    requires FenceAllowed(f)
  {
    Get(members, PROFILE) == JsString(GAP_PROOF_PROFILE)
    && Get(members, RUN_ID) == f.runId
    && Get(members, PRIOR) == JsNumber(Decimal(f.prior))
    && Get(members, CLAIMING) == JsNumber(Decimal(f.claiming))
    && Same(Get(members, INTERVENING), JsArray(Rows(sha, repositoryId, RunIdText(f.runId).value, f.prior, f.claiming)))
  }

  lemma DeletedIsPart(members: seq<Keyed<JsValue>>)
    requires WellFormed(JsObject(true, members)) && ExpectedKeys(members) && Get(members, PROOF_DIGEST).JsString?
    ensures WellFormed(JsObject(true, Delete(members, PROOF_DIGEST)))
    ensures Canonicalize(JsObject(true, Delete(members, PROOF_DIGEST))).Some? <==> Canonicalize(JsObject(true, members)).Some?
  {
    hide Canonicalize, CanonicalMembers, Find, Delete, ExpectedKeys;
    var rest := Delete(members, PROOF_DIGEST);
    DeleteKeys(members, PROOF_DIGEST);
    KeysFound(members);
    forall i | 0 <= i < |rest| ensures WellFormed(rest[i].val) {
      assert rest[i] in members;
    }
    MembersSucceed(members);
    MembersSucceed(rest);
    ObjectPrints(members);
    ObjectPrints(rest);
    if CanonicalMembers(rest).Some? {
      forall i | 0 <= i < |members| && !members[i].val.JsUndefined? ensures Canonicalize(members[i].val).Some? {
        if members[i].key == PROOF_DIGEST {
          LeafPrints(members[i].val);
        } else {
          FindMeans(rest, members[i].key);
          assert Find(rest, members[i].key) == Some(members[i].val);
          assert Keyed(members[i].key, members[i].val) in rest;
        }
      }
    }
    if CanonicalMembers(members).Some? {
      forall i | 0 <= i < |rest| && !rest[i].val.JsUndefined? ensures Canonicalize(rest[i].val).Some? {
        assert rest[i] in members;
      }
    }
  }

  lemma RestSame(members: seq<Keyed<JsValue>>, sha: Sha, repositoryId: Text, f: Fence)
    requires FenceAllowed(f) && ExpectedKeys(members) && DistinctKeys(members) && FiveSame(members, sha, repositoryId, f)
    ensures Same(JsObject(true, Delete(members, PROOF_DIGEST)), JsObject(true, WithoutDigest(sha, repositoryId, f)))
  {
    hide Find, Delete, Same, WithoutDigest, EXPECTED_MEMBERS, ExpectedKeys, Rows, Decimal, RunIdText;
    hide PROFILE, RUN_ID, PRIOR, CLAIMING, INTERVENING, PROOF_DIGEST, GAP_PROOF_PROFILE;
    var a, b := Delete(members, PROOF_DIGEST), WithoutDigest(sha, repositoryId, f);
    DeleteKeys(members, PROOF_DIGEST);
    KeysFound(members);
    RestFinds(sha, repositoryId, f);
    NamesApart();
    PositiveLeaves(f);
    SameLeaf(Get(members, PROFILE), JsString(GAP_PROOF_PROFILE));
    SameLeaf(Get(members, RUN_ID), f.runId);
    SameLeaf(Get(members, PRIOR), JsNumber(Decimal(f.prior)));
    SameLeaf(Get(members, CLAIMING), JsNumber(Decimal(f.claiming)));
    forall name | name in EXPECTED_MEMBERS && name != PROOF_DIGEST ensures AgreeAt(a, b, name) {
      NameCases(name);
      SixFound(members, name);
    }
    forall i | 0 <= i < |a| ensures Find(b, a[i].key).Some? && Same(a[i].val, Find(b, a[i].key).value) {
      FindMeans(a, a[i].key);
      assert a[i] in members;
      assert a[i] == Keyed(a[i].key, a[i].val);
      assert a[i].key in EXPECTED_MEMBERS;
      assert AgreeAt(a, b, a[i].key);
    }
    forall j | 0 <= j < |b| ensures Find(a, b[j].key).Some? && Same(Find(a, b[j].key).value, b[j].val) {
      FindMeans(b, b[j].key);
      assert b[j] == Keyed(b[j].key, b[j].val);
      RestKeys(sha, repositoryId, f, j);
      assert AgreeAt(a, b, b[j].key);
    }
    SameByFinds(a, b);
  }

  lemma SixFound(members: seq<Keyed<JsValue>>, name: Text)
    requires name in EXPECTED_MEMBERS && forall i :: 0 <= i < 6 ==> Find(members, EXPECTED_MEMBERS[i]).Some?
    ensures Find(members, name).Some?
  {
    var i :| 0 <= i < |EXPECTED_MEMBERS| && EXPECTED_MEMBERS[i] == name;
  }

  lemma RestKeys(sha: Sha, repositoryId: Text, f: Fence, j: nat)
    requires FenceAllowed(f) && j < |WithoutDigest(sha, repositoryId, f)|
    ensures WithoutDigest(sha, repositoryId, f)[j].key in EXPECTED_MEMBERS
    ensures WithoutDigest(sha, repositoryId, f)[j].key != PROOF_DIGEST
  {
    hide Rows, RunIdText, Decimal, EXPECTED_MEMBERS, PROFILE, RUN_ID, PRIOR, CLAIMING, INTERVENING, PROOF_DIGEST;
    NamesApart();
    NameCases(WithoutDigest(sha, repositoryId, f)[j].key);
  }

  /** With the other values built, the recorded digest checks exactly when it is the built one. */
  lemma DigestAgrees(members: seq<Keyed<JsValue>>, sha: Sha, repositoryId: Text, f: Fence)
    requires WellFormed(JsObject(true, members)) && ExpectedKeys(members)
    requires FenceAllowed(f) && FiveSame(members, sha, repositoryId, f)
    requires WellFormed(JsObject(true, Delete(members, PROOF_DIGEST)))
    ensures ProofDigest(sha, Delete(members, PROOF_DIGEST)).Some? <==>
              Canonicalize(JsObject(true, Delete(members, PROOF_DIGEST))).Some?
    ensures ProofDigest(sha, Delete(members, PROOF_DIGEST)).Some? ==>
              ProofDigest(sha, Delete(members, PROOF_DIGEST)).value == ProofDigestOf(sha, repositoryId, f)
  {
    hide Canonicalize, Find, Delete, Same, WithoutDigest, ExpectedKeys, FiveSame;
    RestSame(members, sha, repositoryId, f);
    WithoutDigestPrints(sha, repositoryId, f);
    var v, w := JsObject(true, Delete(members, PROOF_DIGEST)), JsObject(true, WithoutDigest(sha, repositoryId, f));
    if Canonicalize(v).Some? {
      TextDecidesData(v, w);
    }
  }

  /** The rows check exactly when they are, as data, the tombstones. */
  lemma RowsChecked(rows: JsValue, sha: Sha, repositoryId: Text, runId: Text, prior: nat, claiming: nat)
    requires WellFormed(rows) && prior < claiming
    ensures var expected := Rows(sha, repositoryId, runId, prior, claiming);
            (rows.JsArray? && |rows.items| == |expected| && RowFailure(rows.items, expected).None?)
            <==> Canonicalize(rows).Some? && Same(rows, JsArray(expected))
  {
    hide Canonicalize, RowFailure, Tombstone, WellFormed, CanonicalItems, Same;
    var expected := Rows(sha, repositoryId, runId, prior, claiming);
    RowsAt(sha, repositoryId, runId, prior, claiming);
    SameAsArray(rows, expected);
    if rows.JsArray? && |rows.items| == |expected| {
      ArrayPrintsIff(rows.items);
      ItemsEachPrint(rows.items);
      forall i | 0 <= i < |expected| ensures WellFormed(expected[i]) && Canonicalize(expected[i]).Some? {
        TombstonePrints(sha, repositoryId, runId, prior + 1 + i);
      }
      RowsAgree(rows.items, expected);
    }
  }

  lemma SameAsArray(v: JsValue, items: seq<JsValue>)
    ensures Same(v, JsArray(items)) <==>
              v.JsArray? && |v.items| == |items| && forall i :: 0 <= i < |items| ==> Same(v.items[i], items[i])
  {
  }

  lemma {:induction false} ItemsEachPrint(items: seq<JsValue>)
    ensures CanonicalItems(items).Some? <==> forall i :: 0 <= i < |items| ==> Canonicalize(items[i]).Some?
  {
    hide Canonicalize;
    if items != [] {
      ItemsEachPrint(items[1..]);
      HeadAndTail(items);
    }
  }

  /** The checks that acceptance for a fence comes down to. */
  lemma ValidateChecks(sha: Sha, repositoryId: Text, m: seq<Keyed<JsValue>>, plain: bool, f: Fence)
    requires ExpectedKeys(m)
    ensures Validate(sha, repositoryId, JsObject(plain, m)) == Ok(f) <==>
              && FenceAllowed(f)
              && Get(m, PROFILE) == JsString(GAP_PROOF_PROFILE)
              && Get(m, RUN_ID) == f.runId
              && Get(m, PRIOR) == JsNumber(Decimal(f.prior))
              && Get(m, CLAIMING) == JsNumber(Decimal(f.claiming))
              && (var rows := Get(m, INTERVENING);
                  var expected := Rows(sha, repositoryId, RunIdText(f.runId).value, f.prior, f.claiming);
                  rows.JsArray? && |rows.items| == |expected| && RowFailure(rows.items, expected).None?)
              && (var digest := ProofDigest(sha, Delete(m, PROOF_DIGEST));
                  digest.Some? && Get(m, PROOF_DIGEST) == JsString(digest.value))
  {
    hide Get, Delete, ExpectedKeys, RowFailure, Rows, RunIdText, Decimal, ProofDigest, IntegerIn;
    IntegerInMeans(Get(m, PRIOR), PRIOR_MINIMUM, PRIOR_MAXIMUM, f.prior);
    IntegerInMeans(Get(m, CLAIMING), CLAIMING_MINIMUM, CLAIMING_MAXIMUM, f.claiming);
  }

  /** What validation accepts is, as data, exactly the complete record for the fence it returns. */
  lemma AcceptsExactlySpelled(sha: Sha, repositoryId: Text, record: JsValue, f: Fence)
    requires WellFormed(record)
    ensures Validate(sha, repositoryId, record) == Ok(f) <==>
              && record.JsObject? && ExpectedKeys(record.members) && Canonicalize(JsObject(true, record.members)).Some?
              && FenceAllowed(f)
              && Same(JsObject(true, record.members), JsObject(true, Spelled(sha, repositoryId, f)))
  {
    hide Canonicalize, Get, Delete, Same, Spelled, ExpectedKeys, RowFailure, Rows, RunIdText, ProofDigest, WellFormed, ProofDigestOf;
    if record.JsObject? && ExpectedKeys(record.members) {
      var m := record.members;
      WellFormedObject(record);
      ValidateChecks(sha, repositoryId, m, record.plain, f);
      if FenceAllowed(f) {
        hide Validate;
        ValueWellFormed(m, INTERVENING);
        RowsChecked(Get(m, INTERVENING), sha, repositoryId, RunIdText(f.runId).value, f.prior, f.claiming);
        SameIsSix(m, sha, repositoryId, f);
        if Canonicalize(JsObject(true, m)).Some? {
          MemberPrints(m, INTERVENING);
        }
        RowsNeverUndefined(Get(m, INTERVENING), Rows(sha, repositoryId, RunIdText(f.runId).value, f.prior, f.claiming));
        if Get(m, PROOF_DIGEST).JsString? {
          DeletedIsPart(m);
          if FiveSame(m, sha, repositoryId, f) {
            DigestAgrees(m, sha, repositoryId, f);
          }
        }
      }
    }
  }

  lemma RowsNeverUndefined(v: JsValue, rows: seq<JsValue>)
    ensures Same(v, JsArray(rows)) ==> !v.JsUndefined?
  {
  }

  lemma WellFormedObject(record: JsValue)
    requires record.JsObject? && WellFormed(record)
    ensures DistinctKeys(record.members) && WellFormed(JsObject(true, record.members))
  {
  }

  lemma ValueWellFormed(members: seq<Keyed<JsValue>>, name: Text)
    requires WellFormed(JsObject(true, members))
    ensures WellFormed(Get(members, name))
  {
    FindMeans(members, name);
    if Find(members, name).Some? {
      var i :| 0 <= i < |members| && members[i] == Keyed(name, Find(members, name).value);
    }
  }

  /** A printable object's values print. */
  lemma MemberPrints(members: seq<Keyed<JsValue>>, name: Text)
    requires DistinctKeys(members) && Canonicalize(JsObject(true, members)).Some?
    ensures Get(members, name).JsUndefined? || Canonicalize(Get(members, name)).Some?
  {
    hide Canonicalize, CanonicalMembers, Find;
    ObjectPrints(members);
    MembersSucceed(members);
    FindMeans(members, name);
    if Find(members, name).Some? {
      var i :| 0 <= i < |members| && members[i] == Keyed(name, Find(members, name).value);
    }
  }

  // ---- The builder ----

  /** The fence as the builder spells it: its run identifier is always a string. */
  function AsBuilt(f: Fence): Fence
    requires FenceAllowed(f)
  {
    f.(runId := JsString(RunIdText(f.runId).value))
  }

  lemma AsBuiltAllowed(f: Fence)
    requires FenceAllowed(f)
    ensures FenceAllowed(AsBuilt(f)) && RunIdText(AsBuilt(f).runId) == RunIdText(f.runId)
    ensures AsBuilt(f) == f <==> f.runId.JsString?
  {
  }

  /** What `buildRunAttemptGapProof` writes. */
  function Built(sha: Sha, repositoryId: Text, f: Fence): seq<Keyed<JsValue>>
    requires FenceAllowed(f)
  {
    AsBuiltAllowed(f);
    Spelled(sha, repositoryId, AsBuilt(f))
  }

  /** `buildRunAttemptGapProof`; `None` where it refuses its input. */
  method BuildRunAttemptGapProof(sha: Sha, repositoryId: Text, runId: JsValue, prior: int, claiming: int)
      returns (proof: Option<seq<Keyed<JsValue>>>)
    ensures proof.Some? <==> prior >= 0 && claiming >= 0 && FenceAllowed(Fence(runId, prior, claiming))
    ensures proof.Some? ==> proof.value == Built(sha, repositoryId, Fence(runId, prior, claiming))
  {
    hide RunIdText, Rows, Decimal;
    var text := RunIdText(runId);
    if text.None? {
      return None;
    }
    var rows := BuildInterveningAttempts(sha, repositoryId, text.value, prior, claiming);
    if rows.None? {
      return None;
    }
    var withoutDigest := [
      Keyed(PROFILE, JsString(GAP_PROOF_PROFILE)),
      Keyed(RUN_ID, JsString(text.value)),
      Keyed(PRIOR, JsNumber(Decimal(prior))),
      Keyed(CLAIMING, JsNumber(Decimal(claiming))),
      Keyed(INTERVENING, JsArray(rows.value))];
    AsBuiltAllowed(Fence(runId, prior, claiming));
    WithoutDigestPrints(sha, repositoryId, AsBuilt(Fence(runId, prior, claiming)));
    assert withoutDigest == WithoutDigest(sha, repositoryId, AsBuilt(Fence(runId, prior, claiming)));
    proof := Some(withoutDigest + [Keyed(PROOF_DIGEST, JsString(ProofDigest(sha, withoutDigest).value))]);
  }

  /** The six names in code-unit order. */
  lemma NamesSorted()
    ensures forall i, j :: 0 <= i < j < 6 ==> !Less(EXPECTED_MEMBERS[j], EXPECTED_MEMBERS[i])
    ensures forall i, j :: 0 <= i < j < 6 ==> EXPECTED_MEMBERS[i] != EXPECTED_MEMBERS[j]
  {
    FirstDiffers(CLAIMING, INTERVENING, 0);
    FirstDiffers(CLAIMING, PRIOR, 0);
    FirstDiffers(CLAIMING, PROFILE, 0);
    FirstDiffers(CLAIMING, PROOF_DIGEST, 0);
    FirstDiffers(CLAIMING, RUN_ID, 0);
    FirstDiffers(INTERVENING, PRIOR, 0);
    FirstDiffers(INTERVENING, PROFILE, 0);
    FirstDiffers(INTERVENING, PROOF_DIGEST, 0);
    FirstDiffers(INTERVENING, RUN_ID, 0);
    FirstDiffers(PRIOR, PROFILE, 2);
    FirstDiffers(PRIOR, PROOF_DIGEST, 2);
    FirstDiffers(PRIOR, RUN_ID, 0);
    FirstDiffers(PROFILE, PROOF_DIGEST, 3);
    FirstDiffers(PROFILE, RUN_ID, 0);
    FirstDiffers(PROOF_DIGEST, RUN_ID, 0);
    hide CLAIMING, INTERVENING, PRIOR, PROFILE, PROOF_DIGEST, RUN_ID, Less;
    var e := EXPECTED_MEMBERS;
    assert e[0] == CLAIMING && e[1] == INTERVENING && e[2] == PRIOR && e[3] == PROFILE && e[4] == PROOF_DIGEST && e[5] == RUN_ID;
  }

  lemma SpelledNames(sha: Sha, repositoryId: Text, f: Fence)
    requires FenceAllowed(f)
    ensures var m := Spelled(sha, repositoryId, f);
            |m| == 6 && m[0].key == PROFILE && m[1].key == RUN_ID && m[2].key == PRIOR
            && m[3].key == CLAIMING && m[4].key == INTERVENING && m[5].key == PROOF_DIGEST
  {
    hide Rows, RunIdText, Decimal, ProofDigest, PROFILE, RUN_ID, PRIOR, CLAIMING, INTERVENING, PROOF_DIGEST;
  }

  function Reordered<T>(m: seq<T>): (r: seq<T>)
    requires |m| == 6
    ensures |r| == 6 && r[0] == m[3] && r[1] == m[4] && r[2] == m[2] && r[3] == m[0] && r[4] == m[5] && r[5] == m[1]
  {
    m[3..5] + m[2..3] + m[..1] + m[5..] + m[1..2]
  }

  lemma ReorderedSame<T>(m: seq<T>)
    requires |m| == 6
    ensures multiset(Reordered(m)) == multiset(m)
  {
    var a, b, c, d, e := m[..1], m[1..2], m[2..3], m[3..5], m[5..];
    assert m == a + b + c + d + e;
    FiveTogether(a, b, c, d, e);
    FiveTogether(d, c, a, e, b);
  }

  lemma FiveTogether<T>(a: seq<T>, b: seq<T>, c: seq<T>, d: seq<T>, e: seq<T>)
    ensures multiset(a + b + c + d + e) == multiset(a) + multiset(b) + multiset(c) + multiset(d) + multiset(e)
  {
  }

  lemma NamesInOrder()
    ensures EXPECTED_MEMBERS == [CLAIMING, INTERVENING, PRIOR, PROFILE, PROOF_DIGEST, RUN_ID]
  {
  }

  /** A complete record has the expected names. */
  lemma SpelledExpected(sha: Sha, repositoryId: Text, f: Fence)
    requires FenceAllowed(f)
    ensures ExpectedKeys(Spelled(sha, repositoryId, f))
  {
    hide Spelled, Sort, Less, Reordered, EXPECTED_MEMBERS, PROFILE, RUN_ID, PRIOR, CLAIMING, INTERVENING, PROOF_DIGEST;
    var m := Spelled(sha, repositoryId, f);
    SpelledNames(sha, repositoryId, f);
    NamesSorted();
    NamesInOrder();
    var sorted := Reordered(m);
    ReorderedSame(m);
    assert forall i :: 0 <= i < 6 ==> sorted[i].key == EXPECTED_MEMBERS[i];
    assert Sorted(sorted) && DistinctKeys(sorted);
    SortContents(m);
    SortSorted(m);
    SortedUnique(sorted, Sort(m));
  }

  lemma SpelledWellFormed(sha: Sha, repositoryId: Text, f: Fence)
    requires FenceAllowed(f)
    ensures Canonicalize(JsObject(true, Spelled(sha, repositoryId, f))).Some?
    ensures WellFormed(JsObject(true, Spelled(sha, repositoryId, f)))
  {
    hide Canonicalize, CanonicalMembers, WellFormed, WithoutDigest, ProofDigest;
    var m, rest := Spelled(sha, repositoryId, f), WithoutDigest(sha, repositoryId, f);
    WithoutDigestPrints(sha, repositoryId, f);
    WellFormedObject(JsObject(true, rest));
    SpelledFinds(sha, repositoryId, f, []);
    ObjectPrints(rest);
    MembersSucceed(rest);
    NeverUndefinedRest(sha, repositoryId, f);
    forall i | 0 <= i < |m| ensures Canonicalize(m[i].val).Some? && WellFormed(m[i].val) {
      if i < |rest| {
        assert m[i] == rest[i];
        ValueInWellFormed(rest, i);
      } else {
        LeafPrints(m[i].val);
      }
    }
    FlatPrints(m);
  }

  lemma ValueInWellFormed(members: seq<Keyed<JsValue>>, i: nat)
    requires WellFormed(JsObject(true, members)) && i < |members|
    ensures WellFormed(members[i].val)
  {
  }

  lemma NeverUndefinedRest(sha: Sha, repositoryId: Text, f: Fence)
    requires FenceAllowed(f)
    ensures forall i :: 0 <= i < |WithoutDigest(sha, repositoryId, f)| ==>
              !WithoutDigest(sha, repositoryId, f)[i].val.JsUndefined?
  {
  }

  /** Every complete record is accepted, a number for a run identifier included. */
  lemma SpelledAccepted(sha: Sha, repositoryId: Text, f: Fence)
    requires FenceAllowed(f)
    ensures Validate(sha, repositoryId, JsObject(true, Spelled(sha, repositoryId, f))) == Ok(f)
  {
    hide Validate, Canonicalize, WellFormed, Same, Spelled, ExpectedKeys;
    SpelledExpected(sha, repositoryId, f);
    SpelledWellFormed(sha, repositoryId, f);
    SameReflexive(JsObject(true, Spelled(sha, repositoryId, f)));
    AcceptsExactlySpelled(sha, repositoryId, JsObject(true, Spelled(sha, repositoryId, f)), f);
  }

  /** What the builder writes is accepted. */
  lemma BuiltAccepted(sha: Sha, repositoryId: Text, f: Fence)
    requires FenceAllowed(f)
    ensures Validate(sha, repositoryId, JsObject(true, Built(sha, repositoryId, f))) == Ok(AsBuilt(f))
  {
    hide Validate, Spelled;
    AsBuiltAllowed(f);
    SpelledAccepted(sha, repositoryId, AsBuilt(f));
  }

  /** An accepted record is what the builder writes for its fence exactly when its run identifier is a string. */
  lemma AcceptedIsBuiltExactlyForStrings(sha: Sha, repositoryId: Text, record: JsValue, f: Fence)
    requires WellFormed(record) && Validate(sha, repositoryId, record) == Ok(f)
    ensures record.JsObject? && FenceAllowed(f)
    ensures Same(JsObject(true, record.members), JsObject(true, Built(sha, repositoryId, f))) <==> f.runId.JsString?
  {
    hide Validate, Canonicalize, Same, Spelled, ExpectedKeys, WellFormed, Find, RunIdText, Decimal, Rows;
    AcceptsExactlySpelled(sha, repositoryId, record, f);
    AsBuiltAllowed(f);
    WellFormedObject(record);
    var m, b := record.members, Built(sha, repositoryId, f);
    SpelledFinds(sha, repositoryId, AsBuilt(f), RUN_ID);
    SpelledFinds(sha, repositoryId, f, RUN_ID);
    RestFinds(sha, repositoryId, f);
    RestFinds(sha, repositoryId, AsBuilt(f));
    NamesApart();
    if Same(JsObject(true, m), JsObject(true, b)) {
      PositiveLeaves(f);
      PositiveLeaves(AsBuilt(f));
      FindInSame(m, b, RUN_ID);
      FindInSame(m, Spelled(sha, repositoryId, f), RUN_ID);
      SameLeaf(Find(m, RUN_ID).value, AsBuilt(f).runId);
      SameLeaf(Find(m, RUN_ID).value, f.runId);
    }
  }

  /** A record the builder never writes and validation accepts: run 7, attempts 1 and 2, the run identifier a number. */
  lemma NumericRunIdAccepted(sha: Sha, repositoryId: Text) returns (record: JsValue, f: Fence)
    ensures f == Fence(JsNumber([0x37]), 1, 2) && FenceAllowed(f)
    ensures Validate(sha, repositoryId, record) == Ok(f)
    ensures record.JsObject? && !Same(JsObject(true, record.members), JsObject(true, Built(sha, repositoryId, f)))
  {
    f := Fence(JsNumber([0x37]), 1, 2);
    hide Validate, Spelled, Built, WellFormed, Same;
    record := JsObject(true, Spelled(sha, repositoryId, f));
    SpelledAccepted(sha, repositoryId, f);
    SpelledWellFormed(sha, repositoryId, f);
    AcceptedIsBuiltExactlyForStrings(sha, repositoryId, record, f);
  }
}
