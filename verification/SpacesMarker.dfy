/** The Spaces generation marker: the canonical JSON of the five marker members. */
module SpacesMarker {
  import opened Wrappers
  import opened Utf16
  import opened Json
  import opened CanonicalJson
  import opened Utf8
  import opened Digest
  import opened Marker

  function MarkerValue(m: Identity): JsValue {
    JsObject(true, [
      Keyed(SCHEMA_ID_NAME, JsString(MARKER_SCHEMA_ID)),
      Keyed(SCHEMA_VERSION_NAME, JsString(MARKER_SCHEMA_VERSION)),
      Keyed(ARTIFACT_ID_NAME, JsString(m.artifactId)),
      Keyed(ARTIFACT_DIGEST_NAME, JsString(m.artifactDigest)),
      Keyed(GENERATION_ID_NAME, JsString(m.generationId))])
  }

  lemma StringPrints(s: Text)
    ensures Canonicalize(JsString(s)).Some? && WellFormed(JsString(s))
  {
  }

  lemma ObjectPrints(members: seq<Keyed<JsValue>>)
    requires DistinctKeys(members) && forall i :: 0 <= i < |members| ==> members[i].val.JsString?
    ensures Canonicalize(JsObject(true, members)).Some? && WellFormed(JsObject(true, members))
  {
    hide Canonicalize, CanonicalMembers;
    forall i | 0 <= i < |members| ensures WellFormed(members[i].val) && Canonicalize(members[i].val).Some? {
      StringPrints(members[i].val.s);
    }
    MembersSucceed(members);
    MembersPrint(members);
  }

  lemma MembersPrint(members: seq<Keyed<JsValue>>)
    ensures Canonicalize(JsObject(true, members)).Some? <==> CanonicalMembers(members).Some?
  {
  }

  lemma MarkerNamesDistinct(m: Identity)
    ensures DistinctKeys(MarkerValue(m).members)
  {
    assert |SCHEMA_ID_NAME| == 8 && |SCHEMA_VERSION_NAME| == 13 && |ARTIFACT_ID_NAME| == 10
        && |ARTIFACT_DIGEST_NAME| == 14 && |GENERATION_ID_NAME| == 12;
  }

  lemma MarkerPrints(m: Identity)
    ensures Canonicalize(MarkerValue(m)).Some? && WellFormed(MarkerValue(m))
  {
    hide Canonicalize, WellFormed;
    MarkerNamesDistinct(m);
    ObjectPrints(MarkerValue(m).members);
  }

  /** `Buffer.from(canonicalizeJson(document), 'utf8')`. */
  function SpacesMarkerBytes(m: Identity): Bytes {
    MarkerPrints(m);
    Encode(Canonicalize(MarkerValue(m)).value)
  }

  lemma {:induction false} StringMemberMeans(members: seq<Keyed<Json>>, name: Text, s: Text)
    requires DistinctKeys(members) && Keyed(name, String(s)) in members
    ensures StringMember(members, name) == Some(s)
  {
    var n := |members| - 1;
    if members[n].key != name {
      assert members == members[..n] + [members[n]];
      StringMemberMeans(members[..n], name, s);
    } else {
      var i :| 0 <= i < |members| && members[i] == Keyed(name, String(s));
    }
  }

  lemma {:induction false} StringsDefined(members: seq<Keyed<JsValue>>)
    requires forall i :: 0 <= i < |members| ==> members[i].val.JsString?
    ensures DefinedMembers(members).Some? && |DefinedMembers(members).value| == |members|
    ensures forall i :: 0 <= i < |members| ==>
              DefinedMembers(members).value[i] == Keyed(members[i].key, String(members[i].val.s))
  {
    if members != [] {
      StringsDefined(members[1..]);
    }
  }

  /** The marker reads back as an object with its five members. */
  lemma SpacesMarkerReads(m: Identity)
    ensures var read := ReadMarker(SpacesMarkerBytes(m));
            && read.Some? && read.value.Object?
            && StringMember(read.value.members, SCHEMA_ID_NAME) == Some(MARKER_SCHEMA_ID)
            && StringMember(read.value.members, SCHEMA_VERSION_NAME) == Some(MARKER_SCHEMA_VERSION)
            && StringMember(read.value.members, ARTIFACT_ID_NAME) == Some(m.artifactId)
            && DigestOf(read.value) == Some(m.artifactDigest)
            && GenerationOf(read.value) == Some(m.generationId)
  {
    hide Canonicalize, Encode, Decode, DecodeLossy, Parse, WellFormed, DefinedMembers, StringMember, Sort;
    hide SCHEMA_ID_NAME, SCHEMA_VERSION_NAME, ARTIFACT_ID_NAME, ARTIFACT_DIGEST_NAME, GENERATION_ID_NAME, MARKER_SCHEMA_ID, MARKER_SCHEMA_VERSION;
    var v := MarkerValue(m);
    MarkerPrints(m);
    CanonicalTextWellFormed(v);
    DecodeEncode(Canonicalize(v).value);
    LossyExtendsStrict(Encode(Canonicalize(v).value));
    ParseRecovers(v);
    StringsDefined(v.members);
    MarkerNamesDistinct(m);
    var values := DefinedMembers(v.members).value;
    var sorted := Sort(values);
    SortContents(values);
    forall i, j | 0 <= i < j < |values| ensures values[i].key != values[j].key {
      assert v.members[i].key != v.members[j].key;
    }
    DistinctByContents(values, sorted);
    forall i | 0 <= i < 5 ensures StringMember(sorted, v.members[i].key) == Some(v.members[i].val.s) {
      assert values[i] in multiset(sorted);
      StringMemberMeans(sorted, v.members[i].key, v.members[i].val.s);
    }
    assert v.members[0].key == SCHEMA_ID_NAME && v.members[1].key == SCHEMA_VERSION_NAME && v.members[2].key == ARTIFACT_ID_NAME
        && v.members[3].key == ARTIFACT_DIGEST_NAME && v.members[4].key == GENERATION_ID_NAME;
  }

  /** Markers of different identities are different bytes. */
  lemma MarkerBytesDecide(a: Identity, b: Identity)
    ensures SpacesMarkerBytes(a) == SpacesMarkerBytes(b) <==> a == b
  {
    hide Canonicalize, Encode, Decode, Same, WellFormed;
    MarkerPrints(a);
    MarkerPrints(b);
    var v, w := MarkerValue(a), MarkerValue(b);
    CanonicalTextWellFormed(v);
    CanonicalTextWellFormed(w);
    DecodeEncode(Canonicalize(v).value);
    DecodeEncode(Canonicalize(w).value);
    if SpacesMarkerBytes(a) == SpacesMarkerBytes(b) {
      TextDecidesData(v, w);
      MarkerNamesDistinct(b);
      SameStringMember(v.members, w.members, 2);
      SameStringMember(v.members, w.members, 3);
      SameStringMember(v.members, w.members, 4);
    }
  }
}
