/**
 The reversible stage token of the Spaces adapter: base64url of the three identity
 segments, the private prefix derived from them, and the cleanup that deletes by it.
 */
module StageToken {
  import opened Wrappers
  import opened Utf16
  import opened Utf8
  import opened SpacesActivation
  import opened SpacesListing

  // ---- base64url (section 5 of RFC 4648, no padding) ----

  type Sextet = n: int | 0 <= n < 64

  function Char(v: Sextet): CodeUnit {
    if v < 26 then 0x41 + v
    else if v < 52 then 0x61 + (v - 26)
    else if v < 62 then 0x30 + (v - 52)
    else if v == 62 then 0x2D else 0x5F
  }

  /** The value of a character of either alphabet; the decoder skips every other. */
  function Value(c: CodeUnit): Option<Sextet> {
    if 0x41 <= c <= 0x5A then Some(c - 0x41)
    else if 0x61 <= c <= 0x7A then Some(c - 0x61 + 26)
    else if 0x30 <= c <= 0x39 then Some(c - 0x30 + 52)
    else if c == 0x2D || c == 0x2B then Some(62)
    else if c == 0x5F || c == 0x2F then Some(63)
    else None
  }

  function Encode64(b: Bytes): Text {
    if b == [] then []
    else
      var x := b[0] as int;
      if |b| == 1 then [Char(x / 4), Char(x % 4 * 16)]
      else
        var y := b[1] as int;
        if |b| == 2 then [Char(x / 4), Char(x % 4 * 16 + y / 16), Char(y % 16 * 4)]
        else
          var z := b[2] as int;
          [Char(x / 4), Char(x % 4 * 16 + y / 16), Char(y % 16 * 4 + z / 64), Char(z % 64)] + Encode64(b[3..])
  }

  function Sextets(t: Text): seq<Sextet> {
    if t == [] then []
    else if Value(t[0]).Some? then [Value(t[0]).value] + Sextets(t[1..])
    else Sextets(t[1..])
  }

  function FromSextets(s: seq<Sextet>): Bytes {
    if |s| < 2 then []
    else
      var first := s[0] as int * 4 + s[1] as int / 16;
      if |s| == 2 then [first]
      else
        var second := s[1] as int % 16 * 16 + s[2] as int / 4;
        if |s| == 3 then [first, second]
        else [first, second, s[2] as int % 4 * 64 + s[3] as int] + FromSextets(s[4..])
  }

  function Decode64(t: Text): Bytes {
    FromSextets(Sextets(t))
  }

  lemma CharValue(v: Sextet)
    ensures Value(Char(v)) == Some(v)
  {
  }

  lemma FourSextets(a: Sextet, b: Sextet, c: Sextet, d: Sextet, t: Text)
    ensures Sextets([Char(a), Char(b), Char(c), Char(d)] + t) == [a, b, c, d] + Sextets(t)
  {
    OneSextet(d, t);
    OneSextet(c, [Char(d)] + t);
    OneSextet(b, [Char(c)] + ([Char(d)] + t));
    OneSextet(a, [Char(b)] + ([Char(c)] + ([Char(d)] + t)));
    assert [Char(a), Char(b), Char(c), Char(d)] + t == [Char(a)] + ([Char(b)] + ([Char(c)] + ([Char(d)] + t)));
  }

  lemma OneSextet(a: Sextet, t: Text)
    ensures Sextets([Char(a)] + t) == [a] + Sextets(t)
  {
    CharValue(a);
    Uncons(Char(a), t);
  }

  lemma FewSextets(a: Sextet, b: Sextet, c: Sextet)
    ensures Sextets([Char(a), Char(b)]) == [a, b]
    ensures Sextets([Char(a), Char(b), Char(c)]) == [a, b, c]
  {
    OneSextet(c, []);
    OneSextet(b, []);
    OneSextet(b, [Char(c)]);
    OneSextet(a, [Char(b)]);
    OneSextet(a, [Char(b), Char(c)]);
    assert [Char(a)] + [Char(b)] == [Char(a), Char(b)] && [Char(b)] + [] == [Char(b)] && [Char(c)] + [] == [Char(c)];
    assert [Char(b)] + [Char(c)] == [Char(b), Char(c)] && [Char(a)] + [Char(b), Char(c)] == [Char(a), Char(b), Char(c)];
  }

  lemma EncodeGroup(b: Bytes)
    requires |b| >= 3
    ensures var x, y, z := b[0] as int, b[1] as int, b[2] as int;
            Encode64(b) == [Char(x / 4), Char(x % 4 * 16 + y / 16), Char(y % 16 * 4 + z / 64), Char(z % 64)] + Encode64(b[3..])
  {
    hide Char;
  }

  lemma OneByte(x: int)
    requires 0 <= x < 256
    ensures FromSextets([x / 4, x % 4 * 16]) == [x]
  {
    assert x % 4 * 16 / 16 == x % 4;
  }

  lemma TwoBytesLeft(x: int, y: int)
    requires 0 <= x < 256 && 0 <= y < 256
    ensures FromSextets([x / 4, x % 4 * 16 + y / 16, y % 16 * 4]) == [x, y]
  {
    var b, c := x % 4 * 16 + y / 16, y % 16 * 4;
    assert b / 16 == x % 4 && b % 16 == y / 16 && c / 4 == y % 16;
  }

  lemma EncodeTail(b: Bytes)
    ensures |b| == 0 ==> Encode64(b) == []
    ensures |b| == 1 ==> Encode64(b) == [Char(b[0] as int / 4), Char(b[0] as int % 4 * 16)]
    ensures |b| == 2 ==> Encode64(b) == [Char(b[0] as int / 4), Char(b[0] as int % 4 * 16 + b[1] as int / 16), Char(b[1] as int % 16 * 4)]
  {
    hide Char;
  }

  lemma TailRoundTrip(b: Bytes)
    requires |b| < 3
    ensures Decode64(Encode64(b)) == b
  {
    hide Char, Value, FromSextets, Encode64, Sextets;
    EncodeTail(b);
    if b == [] {
      NoSextets();
    } else if |b| == 1 {
      FewSextets(b[0] as int / 4, b[0] as int % 4 * 16, 0);
      OneByte(b[0] as int);
    } else {
      FewSextets(b[0] as int / 4, b[0] as int % 4 * 16 + b[1] as int / 16, b[1] as int % 16 * 4);
      TwoBytesLeft(b[0] as int, b[1] as int);
    }
  }

  lemma NoSextets()
    ensures Sextets([]) == [] && FromSextets([]) == []
  {
  }

  /** Decoding inverts encoding. */
  lemma {:induction false} Decode64Encode64(b: Bytes)
    ensures Decode64(Encode64(b)) == b
  {
    hide Encode64, Sextets, FromSextets, Char;
    if |b| < 3 {
      TailRoundTrip(b);
    } else {
      var x, y, z := b[0] as int, b[1] as int, b[2] as int;
      Decode64Encode64(b[3..]);
      EncodeGroup(b);
      FourSextets(x / 4, x % 4 * 16 + y / 16, y % 16 * 4 + z / 64, z % 64, Encode64(b[3..]));
      Group(x, y, z, Sextets(Encode64(b[3..])));
      assert b == [b[0], b[1], b[2]] + b[3..];
    }
  }

  lemma Group(x: int, y: int, z: int, rest: seq<Sextet>)
    requires 0 <= x < 256 && 0 <= y < 256 && 0 <= z < 256
    ensures FromSextets([x / 4, x % 4 * 16 + y / 16, y % 16 * 4 + z / 64, z % 64] + rest) == [x, y, z] + FromSextets(rest)
  {
    var s: seq<Sextet> := [x / 4, x % 4 * 16 + y / 16, y % 16 * 4 + z / 64, z % 64] + rest;
    assert s[4..] == rest;
    assert s[1] / 16 == x % 4 && s[1] % 16 == y / 16 && s[2] / 4 == y % 16 && s[2] % 4 == z / 64;
  }

  // ---- Identities and prefixes ----

  const SLASH: CodeUnit := 0x2F
  const ROOT: Text := [0x72, 0x6F, 0x6F, 0x74, 0x2F]

  /** `_gala/staged/v2/` */
  const STAGE_PREFIX: Text := [0x5F, 0x67, 0x61, 0x6C, 0x61, 0x2F, 0x73, 0x74, 0x61, 0x67, 0x65, 0x64, 0x2F, 0x76, 0x32, 0x2F]

  datatype Triple = Triple(operationId: Text, attemptId: Text, generationId: Text)

  predicate IsAlphanumeric(c: CodeUnit) {
    0x41 <= c <= 0x5A || 0x61 <= c <= 0x7A || 0x30 <= c <= 0x39
  }

  /** `IDENTITY_SEGMENT`. */
  predicate IsSegment(t: Text) {
    1 <= |t| <= 128 && IsAlphanumeric(t[0])
    && forall i :: 0 <= i < |t| ==> IsAlphanumeric(t[i]) || t[i] == 0x2E || t[i] == 0x5F || t[i] == 0x2D
  }

  predicate Valid(id: Triple) {
    IsSegment(id.operationId) && IsSegment(id.attemptId) && IsSegment(id.generationId)
  }

  function Segments(id: Triple): seq<Text> {
    [id.operationId, id.attemptId, id.generationId]
  }

  function OperationPrefix(id: Triple): Text {
    STAGE_PREFIX + Join(Segments(id), SLASH) + [SLASH]
  }

  function RootPrefix(id: Triple): Text {
    OperationPrefix(id) + ROOT
  }

  function TokenOf(id: Triple): Text {
    Encode64(Encode(Join(Segments(id), SLASH)))
  }

  /** `parseStageToken`; `None` where it throws. */
  function ParseToken(token: Text): Option<Triple> {
    if token == [] then None
    else
      var decoded :- Decode(Decode64(token));
      var parts := Split(decoded, SLASH);
      if |parts| != 3 then None
      else
        var id := Triple(parts[0], parts[1], parts[2]);
        if !Valid(id) || TokenOf(id) != token then None else Some(id)
  }

  predicate StartsWith(t: Text, prefix: Text) {
    prefix <= t
  }

  /** `isOwnedStagePrefix`. */
  predicate IsOwned(prefix: Text) {
    StartsWith(prefix, STAGE_PREFIX) && prefix != [] && prefix[|prefix| - 1] == SLASH
    && |prefix| > |STAGE_PREFIX|
    && var parts := Split(prefix[|STAGE_PREFIX|..|prefix| - 1], SLASH);
       |parts| == 3 && IsSegment(parts[0]) && IsSegment(parts[1]) && IsSegment(parts[2])
  }

  lemma NoSlash(id: Triple)
    requires Valid(id)
    ensures forall i :: 0 <= i < 3 ==> SLASH !in Segments(id)[i]
  {
  }

  lemma JoinedAscii(id: Triple)
    requires Valid(id)
    ensures forall i :: 0 <= i < |Join(Segments(id), SLASH)| ==> Join(Segments(id), SLASH)[i] < 0x80
    ensures Join(Segments(id), SLASH) != []
    ensures Split(Join(Segments(id), SLASH), SLASH) == Segments(id)
  {
    NoSlash(id);
    SplitJoin(Segments(id), SLASH);
    JoinThree(id);
  }

  lemma JoinThree(id: Triple)
    ensures Join(Segments(id), SLASH) == id.operationId + [SLASH] + (id.attemptId + [SLASH] + id.generationId)
  {
    var last: seq<Text> := [id.generationId];
    var two: seq<Text> := [id.attemptId, id.generationId];
    assert two[1..] == last && Segments(id)[1..] == two;
    assert Join(last, SLASH) == id.generationId;
    assert Join(two, SLASH) == id.attemptId + [SLASH] + id.generationId;
  }

  /** Tokens and identities are in bijection on what parsing accepts. */
  lemma TokenBijection(id: Triple, token: Text)
    ensures ParseToken(token) == Some(id) <==> Valid(id) && token == TokenOf(id)
  {
    hide Encode64, Decode64, Encode, Decode, Join, Split, IsSegment;
    if Valid(id) && token == TokenOf(id) {
      var joined := Join(Segments(id), SLASH);
      JoinedAscii(id);
      AsciiWellFormed(joined);
      DecodeEncode(joined);
      Decode64Encode64(Encode(joined));
      NotEmpty(joined);
      assert Segments(id)[0] == id.operationId && Segments(id)[1] == id.attemptId && Segments(id)[2] == id.generationId;
    }
  }

  lemma NotEmpty(t: Text)
    requires t != []
    ensures Encode64(Encode(t)) != []
  {
  }

  /** The prefixes cleanup may delete by are exactly the ones this adapter derives. */
  lemma OwnedPrefixes(prefix: Text)
    ensures IsOwned(prefix) <==> exists id :: Valid(id) && prefix == OperationPrefix(id)
  {
    hide Join, Split, IsSegment;
    if IsOwned(prefix) {
      var middle := prefix[|STAGE_PREFIX|..|prefix| - 1];
      var parts := Split(middle, SLASH);
      var id := Triple(parts[0], parts[1], parts[2]);
      JoinSplit(middle, SLASH);
      assert parts == Segments(id);
      assert prefix == STAGE_PREFIX + middle + [SLASH];
      assert Valid(id) && prefix == OperationPrefix(id);
    }
    if exists id :: Valid(id) && prefix == OperationPrefix(id) {
      var id :| Valid(id) && prefix == OperationPrefix(id);
      JoinedAscii(id);
      assert prefix[|STAGE_PREFIX|..|prefix| - 1] == Join(Segments(id), SLASH);
      assert Segments(id)[0] == id.operationId && Segments(id)[1] == id.attemptId && Segments(id)[2] == id.generationId;
    }
  }

  /** Of two derived prefixes, neither begins with the other. */
  lemma PrefixesApart(a: Triple, b: Triple)
    requires Valid(a) && Valid(b)
    ensures StartsWith(OperationPrefix(b), OperationPrefix(a)) <==> a == b
  {
    hide Join, Split, IsSegment;
    if StartsWith(OperationPrefix(b), OperationPrefix(a)) {
      var n := |STAGE_PREFIX|;
      var s, t := Join(Segments(a), SLASH), Join(Segments(b), SLASH);
      var whole := OperationPrefix(b)[n..];
      assert OperationPrefix(a)[n..] == s + [SLASH];
      assert whole == t + [SLASH];
      assert s + [SLASH] <= whole;
      JoinedAscii(a);
      JoinedAscii(b);
      // cut both at their last separator
      SplitAt(whole, SLASH, |s|);
      assert whole[..|s|] == s;
      SplitAt(whole, SLASH, |t|);
      assert whole[..|t|] == t && whole[|t| + 1..] == [];
      SplitNothing();
      var parts := Split(whole, SLASH);
      assert parts == Segments(b) + [[]];
      assert parts == Segments(a) + Split(whole[|s| + 1..], SLASH);
      assert forall i :: 0 <= i < 3 ==> Segments(a)[i] == parts[i] == Segments(b)[i];
      assert a.operationId == Segments(a)[0] && a.attemptId == Segments(a)[1] && a.generationId == Segments(a)[2];
      assert b.operationId == Segments(b)[0] && b.attemptId == Segments(b)[1] && b.generationId == Segments(b)[2];
    }
  }

  lemma SplitNothing()
    ensures Split([], SLASH) == [[]]
  {
  }

  /** No key belongs to two operations. */
  lemma KeysApart(a: Triple, b: Triple, key: Text)
    requires Valid(a) && Valid(b) && a != b
    requires StartsWith(key, OperationPrefix(a))
    ensures !StartsWith(key, OperationPrefix(b))
  {
    hide OperationPrefix;
    if StartsWith(key, OperationPrefix(b)) {
      var p, q := OperationPrefix(a), OperationPrefix(b);
      assert p == key[..|p|] && q == key[..|q|];
      if |p| <= |q| {
        assert q[..|p|] == p;
        PrefixesApart(a, b);
      } else {
        assert p[..|q|] == q;
        PrefixesApart(b, a);
      }
    }
  }

  // ---- Cleanup ----

  /** A complete listing of the staging bucket under a prefix, in pages cut wherever the provider likes. */
  ghost predicate ListsUnder(listing: Listing, objects: Bucket, prefix: Text) {
    listing.Ends() && forall key :: key in KeysOf(listing.pages) <==> key in objects && StartsWith(key, prefix)
  }

  datatype CleanupResult = Cleaned(removed: bool, deletedObjectCount: nat) | PrefixRefused

  class StagingBucket {
    var objects: Bucket

    constructor (objects: Bucket)
      ensures this.objects == objects
    {
      this.objects := objects;
    }

    /** `cleanupStaged`; the token is absent when neither given nor remembered. */
    method CleanupStaged(token: Option<Text>, listing: Listing) returns (r: CleanupResult)
      requires token.Some? && ParseToken(token.value).Some? ==>
                 ListsUnder(listing, objects, RootPrefix(ParseToken(token.value).value))
      modifies this
      ensures token.None? ==> r == Cleaned(false, 0) && objects == old(objects)
      ensures token.Some? && ParseToken(token.value).None? ==> r == PrefixRefused && objects == old(objects)
      ensures token.Some? && ParseToken(token.value).Some? ==>
                var id := ParseToken(token.value).value;
                r.Cleaned? && r.removed == (exists key :: key in old(objects) && StartsWith(key, RootPrefix(id)))
                && (forall key :: key in objects <==> key in old(objects) && !StartsWith(key, RootPrefix(id)))
                && (forall key :: key in objects ==> objects[key] == old(objects)[key])
                && r.deletedObjectCount == |KeysOf(listing.pages)|
    {
      hide ParseToken, RootPrefix, OperationPrefix, IsOwned, KeysOf, Visits;
      if token.None? {
        return Cleaned(false, 0);
      }
      var parsed := ParseToken(token.value);
      if parsed.None? {
        return PrefixRefused;
      }
      TokenBijection(parsed.value, token.value);
      OwnedPrefixes(OperationPrefix(parsed.value));
      if !IsOwned(OperationPrefix(parsed.value)) {
        return PrefixRefused;
      }
      var keys := ListPrefix(listing.answers, listing.pages);
      var i := 0;
      while i < |keys|
        invariant 0 <= i <= |keys|
        invariant forall key :: key in objects <==> key in old(objects) && key !in keys[..i]
        invariant forall key :: key in objects ==> objects[key] == old(objects)[key]
      {
        objects := objects - {keys[i]};
        assert keys[..i + 1] == keys[..i] + [keys[i]];
        i := i + 1;
      }
      assert keys[..i] == keys;
      assert |keys| > 0 ==> keys[0] in keys;
      r := Cleaned(|keys| > 0, |keys|);
    }
  }

  /** Under a listing that names each key once, the count is how many objects went. */
  lemma {:induction false} CountIsRemoved(keys: seq<Text>)
    requires forall i, j :: 0 <= i < j < |keys| ==> keys[i] != keys[j]
    ensures |set key | key in keys| == |keys|
  {
    if keys != [] {
      var front, last := keys[..|keys| - 1], keys[|keys| - 1];
      CountIsRemoved(front);
      assert keys == front + [last];
      assert (set key | key in keys) == (set key | key in front) + {last};
    }
  }

  /** Cleaning one operation leaves every object of every other. */
  lemma CleanupLeavesOthers(mine: Triple, other: Triple, key: Text)
    requires Valid(mine) && Valid(other) && mine != other && StartsWith(key, OperationPrefix(other))
    ensures !StartsWith(key, RootPrefix(mine))
  {
    hide OperationPrefix;
    if StartsWith(key, RootPrefix(mine)) {
      assert OperationPrefix(mine) <= RootPrefix(mine) <= key;
      KeysApart(mine, other, key);
    }
  }
}
