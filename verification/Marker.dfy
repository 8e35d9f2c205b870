/**
 The public generation marker: five string members, written with `JSON.stringify` by the
 local-directory and Pages adapters and read back through `JSON.parse`.
 */
module Marker {
  import opened Wrappers
  import opened Utf16
  import opened Json
  import opened Utf8

  const SCHEMA_ID_NAME: Text := [0x73, 0x63, 0x68, 0x65, 0x6D, 0x61, 0x49, 0x64]
  const SCHEMA_VERSION_NAME: Text := [0x73, 0x63, 0x68, 0x65, 0x6D, 0x61, 0x56, 0x65, 0x72, 0x73, 0x69, 0x6F, 0x6E]
  const ARTIFACT_ID_NAME: Text := [0x61, 0x72, 0x74, 0x69, 0x66, 0x61, 0x63, 0x74, 0x49, 0x64]
  const ARTIFACT_DIGEST_NAME: Text := [0x61, 0x72, 0x74, 0x69, 0x66, 0x61, 0x63, 0x74, 0x44, 0x69, 0x67, 0x65, 0x73, 0x74]
  const GENERATION_ID_NAME: Text := [0x67, 0x65, 0x6E, 0x65, 0x72, 0x61, 0x74, 0x69, 0x6F, 0x6E, 0x49, 0x64]

  /** `urn:gala:schema:public-generation-marker:2.0.0` */
  const MARKER_SCHEMA_ID: Text := [0x75, 0x72, 0x6E, 0x3A, 0x67, 0x61, 0x6C, 0x61, 0x3A, 0x73, 0x63, 0x68, 0x65, 0x6D, 0x61, 0x3A, 0x70, 0x75, 0x62, 0x6C, 0x69, 0x63, 0x2D, 0x67, 0x65, 0x6E, 0x65, 0x72, 0x61, 0x74, 0x69, 0x6F, 0x6E, 0x2D, 0x6D, 0x61, 0x72, 0x6B, 0x65, 0x72, 0x3A, 0x32, 0x2E, 0x30, 0x2E, 0x30]
  /** `2.0.0` */
  const MARKER_SCHEMA_VERSION: Text := [0x32, 0x2E, 0x30, 0x2E, 0x30]

  datatype Identity = Identity(artifactId: Text, artifactDigest: Text, generationId: Text)

  function MarkerJson(m: Identity): Json {
    Object([
      Keyed(SCHEMA_ID_NAME, String(MARKER_SCHEMA_ID)),
      Keyed(SCHEMA_VERSION_NAME, String(MARKER_SCHEMA_VERSION)),
      Keyed(ARTIFACT_ID_NAME, String(m.artifactId)),
      Keyed(ARTIFACT_DIGEST_NAME, String(m.artifactDigest)),
      Keyed(GENERATION_ID_NAME, String(m.generationId))])
  }

  /** `Buffer.from(JSON.stringify(marker), 'utf8')`. */
  function MarkerBytes(m: Identity): Bytes {
    Encode(Stringify(MarkerJson(m)))
  }

  /** The string member `name`; `JSON.parse` keeps the last of repeated names. */
  function StringMember(members: seq<Keyed<Json>>, name: Text): Option<Text> {
    if members == [] then None
    else
      var last := members[|members| - 1];
      if last.key == name then if last.val.String? then Some(last.val.s) else None
      else StringMember(members[..|members| - 1], name)
  }

  /** A marker file's parsed text; `None` where reading a property of it would throw. */
  function ReadMarker(bytes: Bytes): Option<Json> {
    var marker :- Parse(DecodeLossy(bytes));
    if marker.Null? then None else Some(marker)
  }

  /** A marker is readable exactly when its text, broken sequences replaced, is JSON other than `null`. */
  lemma MarkerReadable(bytes: Bytes)
    ensures ReadMarker(bytes).Some? <==> Parse(DecodeLossy(bytes)).Some? && Parse(DecodeLossy(bytes)) != Some(Null)
    ensures ReadMarker(bytes).Some? ==> ReadMarker(bytes) == Parse(DecodeLossy(bytes))
  {
    hide DecodeLossy, Parse;
  }

  /** The property `marker.artifactDigest` when it is a string. */
  function DigestOf(marker: Json): Option<Text> {
    if marker.Object? then StringMember(marker.members, ARTIFACT_DIGEST_NAME) else None
  }

  function GenerationOf(marker: Json): Option<Text> {
    if marker.Object? then StringMember(marker.members, GENERATION_ID_NAME) else None
  }

  lemma MarkerMembers(m: Identity)
    ensures DigestOf(MarkerJson(m)) == Some(m.artifactDigest)
    ensures GenerationOf(MarkerJson(m)) == Some(m.generationId)
  {
    var members := MarkerJson(m).members;
    var front := members[..4];
    assert |ARTIFACT_DIGEST_NAME| == 14 && |GENERATION_ID_NAME| == 12;
    assert front[3] == Keyed(ARTIFACT_DIGEST_NAME, String(m.artifactDigest));
    assert StringMember(front, ARTIFACT_DIGEST_NAME) == Some(m.artifactDigest);
    assert StringMember(members, ARTIFACT_DIGEST_NAME) == StringMember(front, ARTIFACT_DIGEST_NAME);
  }

  /** A written marker reads back with its identity. */
  lemma MarkerReadsBack(m: Identity)
    ensures ReadMarker(MarkerBytes(m)) == Some(MarkerJson(m))
    ensures DigestOf(MarkerJson(m)) == Some(m.artifactDigest)
    ensures GenerationOf(MarkerJson(m)) == Some(m.generationId)
  {
    hide Decode, DecodeLossy, Encode, Parse, Stringify, DigestOf, GenerationOf;
    var v := MarkerJson(m);
    assert WellSpelled(v);
    StringifyWellFormed(v);
    DecodeEncode(Stringify(v));
    LossyExtendsStrict(Encode(Stringify(v)));
    ParseStringify(v);
    MarkerMembers(m);
  }
}
