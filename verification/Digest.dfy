/**
 Domain-separated digests over canonical JSON, and the artifact digest of a file set.
 SHA-256 is a parameter; nothing is assumed of it except where a result says so.
 */
module Digest {
  import opened Wrappers
  import opened Utf16
  import opened Json
  import opened CanonicalJson
  import opened Utf8

  /** SHA-256 with its `sha256:` tag. */
  type Sha = Bytes -> Text

  /** A file of an artifact, filed under its path. */
  type File = Keyed<Bytes>

  /** The manifest entry of a file, filed under its path. */
  datatype Entry = Entry(byteLength: Text, sha256: Text)

  /** `GALA-ARTIFACT-V2` and its trailing space. */
  const ARTIFACT_DOMAIN: Text := [0x47, 0x41, 0x4C, 0x41, 0x2D, 0x41, 0x52, 0x54, 0x49, 0x46, 0x41, 0x43, 0x54, 0x2D, 0x56, 0x32, 0x20]
  const PATH: Text := [0x70, 0x61, 0x74, 0x68]
  const BYTE_LENGTH: Text := [0x62, 0x79, 0x74, 0x65, 0x4C, 0x65, 0x6E, 0x67, 0x74, 0x68]
  const SHA256: Text := [0x73, 0x68, 0x61, 0x32, 0x35, 0x36]

  // ---- Digest preimages ----

  /** The bytes `domainDigest` hashes; `None` when the value has no canonical text. */
  function Preimage(domain: Text, v: JsValue): Option<Bytes> {
    var text :- Canonicalize(v);
    Some(Encode(domain) + Encode(text))
  }

  function DomainDigest(sha: Sha, domain: Text, v: JsValue): Option<Text> {
    var bytes :- Preimage(domain, v);
    Some(sha(bytes))
  }

  /** A separator: no terminator inside, a NUL or a space at the end. */
  predicate IsSeparator(domain: Text) {
    domain != []
    && (domain[|domain| - 1] == 0x00 || domain[|domain| - 1] == 0x20)
    && forall i :: 0 <= i < |domain| - 1 ==> domain[i] != 0x00 && domain[i] != 0x20
  }

  /** Separators of that shape are prefix-free. */
  lemma SeparatorsPrefixFree(d: Text, e: Text)
    requires IsSeparator(d) && IsSeparator(e)
    ensures !(d < e)
  {
  }

  lemma CanonicalTextWellFormed(v: JsValue)
    requires WellFormed(v) && Canonicalize(v).Some?
    ensures WellFormedText(Canonicalize(v).value)
  {
    CanonicalizePrints(v);
    CanonicalWellSpelled(v);
    StringifyWellFormed(Canonical(v).value);
  }

  /**
   Over a prefix-free set of domains the preimage decides both the domain and the data:
   digests of different data under different domains never hash the same bytes.
   */
  lemma PreimageDecides(d: Text, v: JsValue, e: Text, w: JsValue)
    requires WellFormedText(d) && WellFormedText(e) && !(d < e) && !(e < d)
    requires WellFormed(v) && WellFormed(w) && Canonicalize(v).Some? && Canonicalize(w).Some?
    ensures Preimage(d, v) == Preimage(e, w) <==> d == e && Same(v, w)
  {
    var s, t := Canonicalize(v).value, Canonicalize(w).value;
    CanonicalTextWellFormed(v);
    CanonicalTextWellFormed(w);
    EncodeAppend(d, s);
    EncodeAppend(e, t);
    WellFormedAppend(d, s);
    WellFormedAppend(e, t);
    DecodeEncode(d + s);
    DecodeEncode(e + t);
    TextDecidesData(v, w);
    if Preimage(d, v) == Preimage(e, w) {
      assert d + s == e + t;
      SplitAtPrefix(d, s, e, t);
    }
  }

  lemma SplitAtPrefix(d: Text, s: Text, e: Text, t: Text)
    requires d + s == e + t && !(d < e) && !(e < d)
    ensures d == e && s == t
  {
    assert d == (d + s)[..|d|] && e == (e + t)[..|e|];
    assert s == (d + s)[|d|..] && t == (e + t)[|e|..];
  }

  // ---- The artifact digest ----

  /** `String(n)` for a byte count. */
  function Decimal(n: nat): Text {
    if n < 10 then [0x30 + n] else Decimal(n / 10) + [0x30 + n % 10]
  }

  function ProjectEntry(sha: Sha, bytes: Bytes): Entry {
    Entry(Decimal(|bytes|), sha(bytes))
  }

  function Project(sha: Sha, files: seq<File>): seq<Keyed<Entry>> {
    MapValues(bytes => ProjectEntry(sha, bytes), files)
  }

  function EntryValue(entry: Keyed<Entry>): JsValue {
    JsObject(true, [
      Keyed(PATH, JsString(entry.key)),
      Keyed(BYTE_LENGTH, JsString(entry.val.byteLength)),
      Keyed(SHA256, JsString(entry.val.sha256))])
  }

  function EntryValues(entries: seq<Keyed<Entry>>): (r: seq<JsValue>)
    ensures |r| == |entries| && forall i :: 0 <= i < |r| ==> r[i] == EntryValue(entries[i])
  {
    if entries == [] then [] else [EntryValue(entries[0])] + EntryValues(entries[1..])
  }

  lemma EntryPrints(entry: Keyed<Entry>)
    ensures Canonicalize(EntryValue(entry)).Some? && WellFormed(EntryValue(entry))
  {
    var members := EntryValue(entry).members;
    assert |PATH| == 4 && |BYTE_LENGTH| == 10 && |SHA256| == 6;
    assert WellFormed(members[0].val) && WellFormed(members[1].val) && WellFormed(members[2].val);
    assert Canonicalize(members[0].val).Some? && Canonicalize(members[1].val).Some? && Canonicalize(members[2].val).Some?;
    MembersSucceed(members);
  }

  lemma {:induction false} EntriesPrint(entries: seq<Keyed<Entry>>)
    ensures CanonicalItems(EntryValues(entries)).Some?
    ensures WellFormed(JsArray(EntryValues(entries)))
  {
    hide Canonicalize, EntryValue;
    if entries != [] {
      EntriesPrint(entries[1..]);
      EntryPrints(entries[0]);
      var values := EntryValues(entries);
      assert values[1..] == EntryValues(entries[1..]);
      forall i | 0 <= i < |values| ensures WellFormed(values[i]) {
        EntryPrints(entries[i]);
      }
    }
  }

  /** The digest of a path-ordered entry list. */
  function DigestSorted(sha: Sha, entries: seq<Keyed<Entry>>): Text {
    EntriesPrint(entries);
    DomainDigest(sha, ARTIFACT_DOMAIN, JsArray(EntryValues(entries))).value
  }

  /** `computeArtifactDigest`: project, sort by path, digest. */
  function ComputeArtifactDigest(sha: Sha, files: seq<File>): Text {
    DigestSorted(sha, Sort(Project(sha, files)))
  }

  lemma ProjectSort(sha: Sha, files: seq<File>)
    ensures Sort(Project(sha, files)) == Project(sha, Sort(files))
  {
    MapSort(bytes => ProjectEntry(sha, bytes), files);
  }

  /** The digest does not depend on the order the files come in. */
  lemma DigestIgnoresOrder(sha: Sha, files: seq<File>, shuffled: seq<File>)
    requires multiset(files) == multiset(shuffled) && DistinctKeys(files)
    ensures ComputeArtifactDigest(sha, files) == ComputeArtifactDigest(sha, shuffled)
  {
    ProjectSort(sha, files);
    ProjectSort(sha, shuffled);
    SortIgnoresOrder(files, shuffled);
  }

  /** A string member is found by its name. */
  lemma SameStringMember(x: seq<Keyed<JsValue>>, y: seq<Keyed<JsValue>>, i: nat)
    requires Same(JsObject(true, x), JsObject(true, y)) && DistinctKeys(y) && |x| == |y|
    requires i < |x| && x[i].key == y[i].key && x[i].val.JsString? && y[i].val.JsString?
    ensures x[i].val.s == y[i].val.s
  {
    assert FoundIn(x[i], y);
  }

  lemma SameEntry(a: Keyed<Entry>, b: Keyed<Entry>)
    requires Same(EntryValue(a), EntryValue(b))
    ensures a.key == b.key && a.val.sha256 == b.val.sha256
  {
    hide Same;
    var x, y := EntryValue(a).members, EntryValue(b).members;
    assert |PATH| == 4 && |BYTE_LENGTH| == 10 && |SHA256| == 6;
    SameStringMember(x, y, 0);
    SameStringMember(x, y, 2);
  }

  lemma {:induction false} ProjectAt(sha: Sha, files: seq<File>)
    ensures |Project(sha, files)| == |files|
    ensures forall i :: 0 <= i < |files| ==>
              Project(sha, files)[i] == Keyed(files[i].key, ProjectEntry(sha, files[i].val))
  {
    if files != [] {
      ProjectAt(sha, files[1..]);
    }
  }

  /** Entry lists with one digest name the same paths and the same content digests. */
  lemma EqualDigestsEntries(sha: Sha, x: seq<Keyed<Entry>>, y: seq<Keyed<Entry>>)
    requires forall a, b :: sha(a) == sha(b) ==> a == b
    requires DigestSorted(sha, x) == DigestSorted(sha, y)
    ensures |x| == |y|
    ensures forall i :: 0 <= i < |x| ==> x[i].key == y[i].key && x[i].val.sha256 == y[i].val.sha256
  {
    hide Canonicalize, EntryValue, Same, WellFormed, Encode;
    EntriesPrint(x);
    EntriesPrint(y);
    var v, w := JsArray(EntryValues(x)), JsArray(EntryValues(y));
    ArrayPrints(EntryValues(x));
    ArrayPrints(EntryValues(y));
    AsciiWellFormed(ARTIFACT_DOMAIN);
    PreimageDecides(ARTIFACT_DOMAIN, v, ARTIFACT_DOMAIN, w);
    SameArrays(EntryValues(x), EntryValues(y));
    forall i | 0 <= i < |x| ensures x[i].key == y[i].key && x[i].val.sha256 == y[i].val.sha256 {
      SameEntry(x[i], y[i]);
    }
  }

  /** With a collision-free hash the digest decides the file set: every path and every byte. */
  lemma DigestDecidesFiles(sha: Sha, a: seq<File>, b: seq<File>)
    requires forall x, y :: sha(x) == sha(y) ==> x == y
    ensures ComputeArtifactDigest(sha, a) == ComputeArtifactDigest(sha, b) <==> Sort(a) == Sort(b)
  {
    hide DigestSorted, Project;
    ProjectSort(sha, a);
    ProjectSort(sha, b);
    if ComputeArtifactDigest(sha, a) == ComputeArtifactDigest(sha, b) {
      var p, q := Sort(a), Sort(b);
      EqualDigestsEntries(sha, Project(sha, p), Project(sha, q));
      ProjectAt(sha, p);
      ProjectAt(sha, q);
      forall i | 0 <= i < |p| ensures p[i] == q[i] {
        assert Project(sha, p)[i].val.sha256 == Project(sha, q)[i].val.sha256;
      }
      assert p == q;
    }
  }

  lemma SameArrays(x: seq<JsValue>, y: seq<JsValue>)
    requires Same(JsArray(x), JsArray(y))
    ensures |x| == |y| && forall i :: 0 <= i < |x| ==> Same(x[i], y[i])
  {
  }

  lemma ArrayPrints(items: seq<JsValue>)
    requires CanonicalItems(items).Some?
    ensures Canonicalize(JsArray(items)).Some?
  {
  }
}
