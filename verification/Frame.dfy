/**
 Length-prefixed protocol frames: an unsigned big-endian 32-bit length, then exactly
 that many bytes of UTF-8 JSON, at most 1,048,576 of them.
 */
module Frame {
  import opened Wrappers
  import opened Utf16
  import opened Json
  import opened Utf8

  const FRAME_CEILING_BYTES := 1_048_576
  const FRAME_LENGTH_PREFIX_BYTES := 4

  datatype FrameError = Truncated | Empty | TooLarge | InvalidUtf8 | InvalidJson

  datatype Decoded = Decoded(message: Json, byteLength: nat, remainder: Bytes)

  function WriteUInt32BE(n: nat): Bytes
    requires n < 0x1_0000_0000
  {
    [n / 0x100_0000, n / 0x1_0000 % 256, n / 0x100 % 256, n % 256]
  }

  function ReadUInt32BE(b: Bytes): nat
    requires |b| >= 4
  {
    b[0] as int * 0x100_0000 + b[1] as int * 0x1_0000 + b[2] as int * 0x100 + b[3]
  }

  lemma LengthRoundTrip(n: nat, rest: Bytes)
    requires n < 0x1_0000_0000
    ensures ReadUInt32BE(WriteUInt32BE(n) + rest) == n
  {
    var a, b, c := n / 0x100, n / 0x1_0000, n / 0x100_0000;
    assert n == 256 * a + n % 256;
    assert b == a / 256 && a == 256 * b + a % 256;
    assert c == b / 256 && b == 256 * c + b % 256;
  }

  /** The prefix is most significant byte first: prefixes order as their lengths do, and a short length is in the last byte. */
  lemma PrefixBigEndian(m: nat, n: nat)
    requires m < n < 0x1_0000_0000
    ensures Less(WriteUInt32BE(m), WriteUInt32BE(n))
    ensures n < 256 ==> WriteUInt32BE(n) == [0, 0, 0, n]
  {
    var a, b := WriteUInt32BE(m), WriteUInt32BE(n);
    LengthRoundTrip(m, []);
    LengthRoundTrip(n, []);
    assert a + [] == a && b + [] == b;
    if a[0] != b[0] {
      FirstDiffers(a, b, 0);
    } else if a[1] != b[1] {
      assert a[..1] == b[..1];
      FirstDiffers(a, b, 1);
    } else if a[2] != b[2] {
      assert a[..2] == b[..2];
      FirstDiffers(a, b, 2);
    } else {
      assert a[..3] == b[..3];
      FirstDiffers(a, b, 3);
    }
  }

  /** The frame of a message, or the refusal of an oversized one. */
  function FrameOf(message: Json): Result<Bytes, FrameError> {
    var body := Encode(Stringify(message));
    if |body| == 0 then Err(Empty)
    else if |body| > FRAME_CEILING_BYTES then Err(TooLarge)
    else Ok(WriteUInt32BE(|body|) + body)
  }

  /** `buffer.writeUInt32BE(n, 0)`, lowest byte first as the runtime stores it. */
  method PutUInt32BE(prefix: array<Byte>, n: nat)
    requires prefix.Length == FRAME_LENGTH_PREFIX_BYTES && n < 0x1_0000_0000
    modifies prefix
    ensures prefix[..] == WriteUInt32BE(n)
  {
    var rest := n;
    prefix[3] := rest % 256;
    rest := rest / 256;
    assert rest == n / 0x100;
    prefix[2] := rest % 256;
    rest := rest / 256;
    assert rest == n / 0x1_0000;
    prefix[1] := rest % 256;
    rest := rest / 256;
    assert rest == n / 0x100_0000;
    prefix[0] := rest;
  }

  /** `encodeFrame`: the prefix is written into its own four-byte buffer. */
  method EncodeFrame(message: Json) returns (r: Result<Bytes, FrameError>)
    ensures r == FrameOf(message)
  {
    var body := Encode(Stringify(message));
    if |body| == 0 {
      return Err(Empty);
    }
    if |body| > FRAME_CEILING_BYTES {
      return Err(TooLarge);
    }
    var prefix := new Byte[FRAME_LENGTH_PREFIX_BYTES];
    PutUInt32BE(prefix, |body|);
    r := Ok(prefix[..] + body);
  }

  /** `TextDecoder('utf-8', {fatal: true})`: strict, and a leading byte-order mark is dropped. */
  function DecodeStrict(b: Bytes): Option<Text> {
    var text :- Decode(b);
    Some(if text != [] && text[0] == 0xFEFF then text[1..] else text)
  }

  /** One frame off the head of a buffer. */
  function DecodeFrame(buffer: Bytes): (r: Result<Decoded, FrameError>)
    ensures r.Ok? ==> |r.value.remainder| + 5 <= |buffer|
    ensures r.Ok? ==> r.value.byteLength <= FRAME_CEILING_BYTES
  {
    if |buffer| < FRAME_LENGTH_PREFIX_BYTES then Err(Truncated)
    else
      var declared := ReadUInt32BE(buffer);
      if declared == 0 then Err(Empty)
      else if declared > FRAME_CEILING_BYTES then Err(TooLarge)
      else if |buffer| - FRAME_LENGTH_PREFIX_BYTES < declared then Err(Truncated)
      else
        match DecodeStrict(buffer[FRAME_LENGTH_PREFIX_BYTES..FRAME_LENGTH_PREFIX_BYTES + declared])
        case None => Err(InvalidUtf8)
        case Some(text) =>
          match Parse(text)
          case None => Err(InvalidJson)
          case Some(message) =>
            Ok(Decoded(message, declared, buffer[FRAME_LENGTH_PREFIX_BYTES + declared..]))
  }

  /** Which refusal meets which buffer, in the order of the checks. */
  lemma FrameAnswers(buffer: Bytes)
    ensures var r := DecodeFrame(buffer);
            && (|buffer| < 4 ==> r == Err(Truncated))
            && (|buffer| >= 4 ==>
                  var n := ReadUInt32BE(buffer);
                  && (r == Err(Empty) <==> n == 0)
                  && (r == Err(TooLarge) <==> n > FRAME_CEILING_BYTES)
                  && (r == Err(Truncated) <==> 0 < n <= FRAME_CEILING_BYTES && |buffer| < 4 + n)
                  && (0 < n <= FRAME_CEILING_BYTES && |buffer| >= 4 + n ==>
                        && (r == Err(InvalidUtf8) <==> Decode(buffer[4..4 + n]).None?)
                        && (r.Ok? ==> r.value.byteLength == n && r.value.remainder == buffer[4 + n..])))
  {
    hide Decode, Parse;
  }

  /** A byte-order mark in front of a payload's text does not show in its message. */
  lemma MarkDropped(text: Text, rest: Bytes)
    requires WellFormedText(text) && Parse(text).Some? && |Encode([0xFEFF] + text)| <= FRAME_CEILING_BYTES
    ensures var body := Encode([0xFEFF] + text);
            DecodeFrame(WriteUInt32BE(|body|) + body + rest) == Ok(Decoded(Parse(text).value, |body|, rest))
  {
    hide Decode, Parse, Encode, WriteUInt32BE, ReadUInt32BE;
    var marked: Text := [0xFEFF] + text;
    var body := Encode(marked);
    Uncons(0xFEFF, text);
    MarkWellFormed(text);
    DecodeEncode(marked);
    EncodeLength(marked);
    var buffer := WriteUInt32BE(|body|) + body + rest;
    LengthRoundTrip(|body|, body + rest);
    Regroup(WriteUInt32BE(|body|), body, rest);
    assert |WriteUInt32BE(|body|)| == 4 by {
      PrefixLength(|body|);
    }
    assert buffer[4..4 + |body|] == body && buffer[4 + |body|..] == rest;
  }

  lemma MarkWellFormed(text: Text)
    requires WellFormedText(text)
    ensures WellFormedText([0xFEFF] + text)
  {
    assert WellFormedText([0xFEFF]) by {
      assert [0xFEFF as CodeUnit][1..] == [];
    }
    WellFormedAppend([0xFEFF], text);
  }

  lemma PrefixLength(n: nat)
    requires n < 0x1_0000_0000
    ensures |WriteUInt32BE(n)| == 4
  {
  }

  /** Every frame of a buffer, in order. */
  function Messages(buffer: Bytes): Result<seq<Json>, FrameError>
    decreases |buffer|
  {
    if buffer == [] then Ok([])
    else
      var head :- DecodeFrame(buffer);
      var tail :- Messages(head.remainder);
      Ok([head.message] + tail)
  }

  method DecodeFrames(buffer: Bytes) returns (r: Result<seq<Json>, FrameError>)
    ensures r == Messages(buffer)
  {
    hide DecodeFrame;
    var messages: seq<Json> := [];
    var remaining := buffer;
    PrependNothing(Messages(buffer));
    while |remaining| > 0
      invariant Messages(buffer) == Prepend(messages, Messages(remaining))
      decreases |remaining|
    {
      ghost var before := messages;
      var decoded := DecodeFrame(remaining);
      if decoded.Err? {
        return Err(decoded.error);
      }
      messages := messages + [decoded.value.message];
      remaining := decoded.value.remainder;
      PrependTwice(before, [decoded.value.message], Messages(remaining));
    }
    assert messages + [] == messages;
    r := Ok(messages);
  }

  function Prepend(front: seq<Json>, r: Result<seq<Json>, FrameError>): Result<seq<Json>, FrameError> {
    match r
    case Ok(rest) => Ok(front + rest)
    case Err(e) => Err(e)
  }

  lemma PrependNothing(r: Result<seq<Json>, FrameError>)
    ensures Prepend([], r) == r
  {
    assert r.Ok? ==> [] + r.value == r.value;
  }

  lemma PrependTwice(a: seq<Json>, b: seq<Json>, r: Result<seq<Json>, FrameError>)
    ensures Prepend(a, Prepend(b, r)) == Prepend(a + b, r)
  {
    assert r.Ok? ==> a + (b + r.value) == a + b + r.value;
  }

  // ---- Results ----

  lemma PrintedTextStrict(message: Json)
    requires WellSpelled(message)
    ensures DecodeStrict(Encode(Stringify(message))) == Some(Stringify(message))
    ensures Encode(Stringify(message)) != []
  {
    hide Decode, Encode;
    StringifyWellFormed(message);
    DecodeEncode(Stringify(message));
    PrintedStart(message, []);
    DecodeNothing();
    if message.Number? {
      NumberStarts(message.token);
    }
  }

  /** A frame followed by any bytes decodes to its message and leaves exactly those bytes. */
  lemma FrameRoundTrip(message: Json, rest: Bytes)
    requires WellSpelled(message) && FrameOf(message).Ok?
    ensures DecodeFrame(FrameOf(message).value + rest) ==
            Ok(Decoded(message, |FrameOf(message).value| - 4, rest))
  {
    hide Decode, Encode, Parse, ReadUInt32BE;
    var body := Encode(Stringify(message));
    PrintedTextStrict(message);
    ParseStringify(message);
    LengthRoundTrip(|body|, body + rest);
    var buffer := FrameOf(message).value + rest;
    assert buffer == WriteUInt32BE(|body|) + (body + rest);
    assert buffer[4..4 + |body|] == body && buffer[4 + |body|..] == rest;
  }

  /** A buffer that ends inside its first frame is refused as truncated. */
  lemma CutFrameRefused(message: Json, k: nat)
    requires WellSpelled(message) && FrameOf(message).Ok? && k < |FrameOf(message).value|
    ensures DecodeFrame(FrameOf(message).value[..k]) == Err(Truncated)
  {
    hide Encode, ReadUInt32BE;
    PrintedTextStrict(message);
    if k >= 4 {
      var body := Encode(Stringify(message));
      LengthRoundTrip(|body|, body[..k - 4]);
      assert FrameOf(message).value[..k] == WriteUInt32BE(|body|) + body[..k - 4];
    }
  }

  /** The frames of the messages, one after another. */
  function Stream(messages: seq<Json>): Bytes
    requires forall i :: 0 <= i < |messages| ==> FrameOf(messages[i]).Ok?
  {
    if messages == [] then [] else FrameOf(messages[0]).value + Stream(messages[1..])
  }

  /** Coalesced frames decode to exactly their messages, whatever the stream continues with. */
  lemma {:induction false} StreamRoundTrip(messages: seq<Json>, rest: Bytes)
    requires forall i :: 0 <= i < |messages| ==> WellSpelled(messages[i]) && FrameOf(messages[i]).Ok?
    ensures Messages(Stream(messages) + rest) == Prepend(messages, Messages(rest))
  {
    hide FrameOf, DecodeFrame;
    if messages == [] {
      assert Stream(messages) + rest == rest;
      PrependNothing(Messages(rest));
    } else {
      var frame, tail := FrameOf(messages[0]).value, Stream(messages[1..]) + rest;
      FrameRoundTrip(messages[0], tail);
      StreamRoundTrip(messages[1..], rest);
      assert Stream(messages) + rest == frame + tail;
      assert messages == [messages[0]] + messages[1..];
      PrependTwice([messages[0]], messages[1..], Messages(rest));
      FrameNotEmpty(messages[0]);
    }
  }

  lemma FrameNotEmpty(message: Json)
    requires FrameOf(message).Ok?
    ensures |FrameOf(message).value| >= 5
  {
  }

  /** A stream cut anywhere inside its last frame is refused, no matter how many frames came before. */
  lemma CutStreamRefused(messages: seq<Json>, last: Json, k: nat)
    requires forall i :: 0 <= i < |messages| ==> WellSpelled(messages[i]) && FrameOf(messages[i]).Ok?
    requires WellSpelled(last) && FrameOf(last).Ok? && 0 < k < |FrameOf(last).value|
    ensures Messages(Stream(messages) + FrameOf(last).value[..k]) == Err(Truncated)
  {
    StreamRoundTrip(messages, FrameOf(last).value[..k]);
    CutFrameRefused(last, k);
  }

  /** `decodeFrames` of concatenated frames is exactly the messages. */
  lemma DecodeFramesRecovers(messages: seq<Json>)
    requires forall i :: 0 <= i < |messages| ==> WellSpelled(messages[i]) && FrameOf(messages[i]).Ok?
    ensures Messages(Stream(messages)) == Ok(messages)
  {
    StreamRoundTrip(messages, []);
    assert Stream(messages) + [] == Stream(messages) && messages + [] == messages;
  }
}
