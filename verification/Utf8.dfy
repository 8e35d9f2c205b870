/**
 UTF-8 as Node writes it (`Buffer.from(text, 'utf8')`) and as `TextDecoder` with
 `fatal: true` reads it.
 */
module Utf8 {
  import opened Wrappers
  import opened Utf16
  import opened Json

  type Byte = b: int | 0 <= b < 256
  type Bytes = seq<Byte>

  /** No surrogate stands alone. */
  predicate WellFormedText(t: Text) {
    if t == [] then true
    else if |t| >= 2 && IsHighSurrogate(t[0]) && IsLowSurrogate(t[1]) then WellFormedText(t[2..])
    else !IsHighSurrogate(t[0]) && !IsLowSurrogate(t[0]) && WellFormedText(t[1..])
  }

  function EncodeUnit(u: CodeUnit): Bytes {
    if u < 0x80 then [u]
    else if u < 0x800 then [0xC0 + u / 64, 0x80 + u % 64]
    else [0xE0 + u / 4096, 0x80 + u / 64 % 64, 0x80 + u % 64]
  }

  /** The code point above U+FFFF a surrogate pair stands for. */
  function PairPoint(high: CodeUnit, low: CodeUnit): (c: int)
    requires IsHighSurrogate(high) && IsLowSurrogate(low)
    ensures 0x1_0000 <= c < 0x11_0000
  {
    0x1_0000 + (high - 0xD800) * 0x400 + (low - 0xDC00)
  }

  function EncodePoint(c: int): Bytes
    requires 0x1_0000 <= c < 0x11_0000
  {
    [0xF0 + c / 262144, 0x80 + c / 4096 % 64, 0x80 + c / 64 % 64, 0x80 + c % 64]
  }

  /** A lone surrogate becomes U+FFFD. */
  function Encode(t: Text): Bytes {
    if t == [] then []
    else if |t| >= 2 && IsHighSurrogate(t[0]) && IsLowSurrogate(t[1]) then
      EncodePoint(PairPoint(t[0], t[1])) + Encode(t[2..])
    else if IsHighSurrogate(t[0]) || IsLowSurrogate(t[0]) then [0xEF, 0xBF, 0xBD] + Encode(t[1..])
    else EncodeUnit(t[0]) + Encode(t[1..])
  }

  predicate IsContinuation(b: Byte) {
    0x80 <= b < 0xC0
  }

  /** Strict decoding: overlong forms, surrogates and stray bytes are refused. */
  function Decode(b: Bytes): Option<Text> {
    if b == [] then Some([])
    else if b[0] < 0x80 then
      var tail :- Decode(b[1..]);
      Some([b[0]] + tail)
    else if 0xC2 <= b[0] < 0xE0 && |b| >= 2 && IsContinuation(b[1]) then
      var tail :- Decode(b[2..]);
      Some([(b[0] as int - 0xC0) * 64 + (b[1] as int - 0x80)] + tail)
    else if 0xE0 <= b[0] < 0xF0 && |b| >= 3 && IsContinuation(b[1]) && IsContinuation(b[2]) then
      var u := (b[0] as int - 0xE0) * 4096 + (b[1] as int - 0x80) * 64 + (b[2] as int - 0x80);
      if u < 0x800 || IsHighSurrogate(u) || IsLowSurrogate(u) then None
      else
        var tail :- Decode(b[3..]);
        Some([u] + tail)
    else if 0xF0 <= b[0] < 0xF5 && |b| >= 4 && IsContinuation(b[1]) && IsContinuation(b[2]) && IsContinuation(b[3]) then
      var c := (b[0] as int - 0xF0) * 262144 + (b[1] as int - 0x80) * 4096 + (b[2] as int - 0x80) * 64 + (b[3] as int - 0x80);
      if c < 0x1_0000 || c >= 0x11_0000 then None
      else
        var tail :- Decode(b[4..]);
        Some([0xD800 + (c - 0x1_0000) / 0x400, 0xDC00 + (c - 0x1_0000) % 0x400] + tail)
    else None
  }

  // ---- Round trip ----

  lemma Places(c: nat)
    requires c < 0x11_0000
    ensures c == c / 262144 * 262144 + c / 4096 % 64 * 4096 + c / 64 % 64 * 64 + c % 64
  {
    var x, y, z := c / 64, c / 4096, c / 262144;
    assert c == 64 * x + c % 64;
    assert y == x / 64 && x == 64 * y + x % 64;
    assert z == y / 64 && y == 64 * z + y % 64;
  }

  lemma ReadTwo(b: Bytes, u: CodeUnit, rest: Bytes)
    requires |b| >= 2 && b[2..] == rest && Decode(rest).Some?
    requires 0xC2 <= b[0] < 0xE0 && IsContinuation(b[1])
    requires (b[0] as int - 0xC0) * 64 + (b[1] as int - 0x80) == u
    ensures Decode(b) == Some([u] + Decode(rest).value)
  {
  }

  lemma TwoBytes(u: CodeUnit, rest: Bytes)
    requires 0x80 <= u < 0x800 && Decode(rest).Some?
    ensures Decode([0xC0 + u / 64, 0x80 + u % 64] + rest) == Some([u] + Decode(rest).value)
  {
    hide Decode;
    ReadTwo([0xC0 + u / 64, 0x80 + u % 64] + rest, u, rest);
  }

  lemma ReadThree(b: Bytes, u: CodeUnit, rest: Bytes)
    requires |b| >= 3 && b[3..] == rest && Decode(rest).Some?
    requires 0xE0 <= b[0] < 0xF0 && IsContinuation(b[1]) && IsContinuation(b[2])
    requires (b[0] as int - 0xE0) * 4096 + (b[1] as int - 0x80) * 64 + (b[2] as int - 0x80) == u
    requires 0x800 <= u && !IsHighSurrogate(u) && !IsLowSurrogate(u)
    ensures Decode(b) == Some([u] + Decode(rest).value)
  {
  }

  lemma ThreeBytes(u: CodeUnit, rest: Bytes)
    requires 0x800 <= u && !IsHighSurrogate(u) && !IsLowSurrogate(u) && Decode(rest).Some?
    ensures Decode([0xE0 + u / 4096, 0x80 + u / 64 % 64, 0x80 + u % 64] + rest) == Some([u] + Decode(rest).value)
  {
    hide Decode;
    Places(u);
    assert u / 4096 % 64 == u / 4096 < 16;
    ReadThree([0xE0 + u / 4096, 0x80 + u / 64 % 64, 0x80 + u % 64] + rest, u, rest);
  }

  lemma UnitRoundTrip(u: CodeUnit, rest: Bytes)
    requires !IsHighSurrogate(u) && !IsLowSurrogate(u) && Decode(rest).Some?
    ensures Decode(EncodeUnit(u) + rest) == Some([u] + Decode(rest).value)
  {
    if u < 0x80 {
      assert (EncodeUnit(u) + rest)[1..] == rest;
    } else if u < 0x800 {
      TwoBytes(u, rest);
    } else {
      ThreeBytes(u, rest);
    }
  }

  lemma ReadFour(b: Bytes, c: int, rest: Bytes)
    requires |b| >= 4 && b[4..] == rest && Decode(rest).Some? && 0x1_0000 <= c < 0x11_0000
    requires 0xF0 <= b[0] < 0xF5 && IsContinuation(b[1]) && IsContinuation(b[2]) && IsContinuation(b[3])
    requires (b[0] as int - 0xF0) * 262144 + (b[1] as int - 0x80) * 4096 + (b[2] as int - 0x80) * 64 + (b[3] as int - 0x80) == c
    ensures Decode(b) ==
            Some([0xD800 + (c - 0x1_0000) / 0x400, 0xDC00 + (c - 0x1_0000) % 0x400] + Decode(rest).value)
  {
  }

  lemma PairRoundTrip(high: CodeUnit, low: CodeUnit, rest: Bytes)
    requires IsHighSurrogate(high) && IsLowSurrogate(low) && Decode(rest).Some?
    ensures Decode(EncodePoint(PairPoint(high, low)) + rest) == Some([high, low] + Decode(rest).value)
  {
    hide Decode;
    var c := PairPoint(high, low);
    Places(c);
    ReadFour(EncodePoint(c) + rest, c, rest);
    assert (c - 0x1_0000) / 0x400 == high - 0xD800 && (c - 0x1_0000) % 0x400 == low - 0xDC00;
  }

  /** Strict decoding reads back every text without lone surrogates. */
  lemma {:induction false} DecodeEncode(t: Text)
    requires WellFormedText(t)
    ensures Decode(Encode(t)) == Some(t)
  {
    hide Decode, EncodePoint, EncodeUnit;
    if t == [] {
      DecodeNothing();
    } else if |t| >= 2 && IsHighSurrogate(t[0]) && IsLowSurrogate(t[1]) {
      DecodeEncode(t[2..]);
      PairRoundTrip(t[0], t[1], Encode(t[2..]));
      assert t == [t[0], t[1]] + t[2..];
    } else {
      DecodeEncode(t[1..]);
      UnitRoundTrip(t[0], Encode(t[1..]));
      assert t == [t[0]] + t[1..];
    }
  }

  lemma DecodeNothing()
    ensures Decode([]) == Some([])
  {
  }

  // ---- Lossy decoding ----

  const REPLACEMENT: CodeUnit := 0xFFFD

  /** How many bytes the sequence that `b0` leads has; 0 where no sequence starts with it. */
  function Need(b0: Byte): nat {
    if b0 < 0x80 then 1
    else if 0xC2 <= b0 < 0xE0 then 2
    else if 0xE0 <= b0 < 0xF0 then 3
    else if 0xF0 <= b0 < 0xF5 then 4
    else 0
  }

  /** The second byte can continue the first: no overlong form, surrogate or point above U+10FFFF. */
  predicate GoodSecond(b0: Byte, b1: Byte) {
    IsContinuation(b1)
    && (b0 == 0xE0 ==> 0xA0 <= b1) && (b0 == 0xED ==> b1 < 0xA0)
    && (b0 == 0xF0 ==> 0x90 <= b1) && (b0 == 0xF4 ==> b1 < 0x90)
  }

  /** The longest start of a sequence at the front of `b`: what one replacement character stands for. */
  function StartLength(b: Bytes): (n: nat)
    requires b != []
    ensures 1 <= n <= |b| && n <= 4
  {
    if Need(b[0]) <= 1 || |b| < 2 || !GoodSecond(b[0], b[1]) then 1
    else if Need(b[0]) == 2 || |b| < 3 || !IsContinuation(b[2]) then 2
    else if Need(b[0]) == 3 || |b| < 4 || !IsContinuation(b[3]) then 3
    else 4
  }

  /** The units a whole sequence at the front of `b` spells. */
  function FrontUnits(b: Bytes): Text
    requires b != [] && StartLength(b) == Need(b[0])
  {
    if Need(b[0]) == 1 then [b[0]]
    else if Need(b[0]) == 2 then [(b[0] as int - 0xC0) * 64 + (b[1] as int - 0x80)]
    else if Need(b[0]) == 3 then [(b[0] as int - 0xE0) * 4096 + (b[1] as int - 0x80) * 64 + (b[2] as int - 0x80)]
    else
      var c := (b[0] as int - 0xF0) * 262144 + (b[1] as int - 0x80) * 4096 + (b[2] as int - 0x80) * 64 + (b[3] as int - 0x80);
      [0xD800 + (c - 0x1_0000) / 0x400, 0xDC00 + (c - 0x1_0000) % 0x400]
  }

  /** `buffer.toString('utf8')`: each maximal start of a broken sequence becomes U+FFFD. */
  function DecodeLossy(b: Bytes): Text
    decreases |b|
  {
    if b == [] then []
    else
      var n := StartLength(b);
      (if n == Need(b[0]) then FrontUnits(b) else [REPLACEMENT]) + DecodeLossy(b[n..])
  }

  /** On what strict decoding accepts, the two agree. */
  lemma {:induction false} LossyExtendsStrict(b: Bytes)
    requires Decode(b).Some?
    ensures DecodeLossy(b) == Decode(b).value
    decreases |b|
  {
    if b != [] {
      LossyExtendsStrict(b[Need(b[0])..]);
    }
  }

  /** A byte read on its own: itself when ASCII, a replacement otherwise. */
  function AloneUnit(b: Byte): CodeUnit {
    if b < 0x80 then b else REPLACEMENT
  }

  /** Decoding never lengthens, and keeps the length only where every byte was read on its own. */
  lemma {:induction false} LossyLength(b: Bytes)
    ensures |DecodeLossy(b)| <= |b|
    ensures |DecodeLossy(b)| == |b| ==> forall i :: 0 <= i < |b| ==> DecodeLossy(b)[i] == AloneUnit(b[i])
    decreases |b|
  {
    if b != [] {
      var n := StartLength(b);
      LossyLength(b[n..]);
      if |DecodeLossy(b)| == |b| {
        assert n == 1;
        HeadAndTail(b);
      }
    }
  }

  /** Bytes that are ASCII or 0xFD are read one by one. */
  lemma {:induction false} LossyAlone(b: Bytes)
    requires forall i :: 0 <= i < |b| ==> b[i] < 0x80 || b[i] == 0xFD
    ensures |DecodeLossy(b)| == |b| && forall i :: 0 <= i < |b| ==> DecodeLossy(b)[i] == AloneUnit(b[i])
    decreases |b|
  {
    if b != [] {
      LossyAlone(b[1..]);
    }
  }

  /** `t` starts with a surrogate pair. */
  predicate StartsWithPair(t: Text) {
    |t| >= 2 && IsHighSurrogate(t[0]) && IsLowSurrogate(t[1])
  }

  lemma StartOfAppend(a: Text, b: Text)
    requires a != [] && (|a| == 1 ==> !IsHighSurrogate(a[0]))
    ensures StartsWithPair(a + b) <==> StartsWithPair(a)
    ensures StartsWithPair(a) ==> (a + b)[2..] == a[2..] + b
    ensures (a + b)[0] == a[0] && (a + b)[1..] == a[1..] + b
  {
    hide IsHighSurrogate, IsLowSurrogate;
    if |a| >= 2 {
      assert (a + b)[1] == a[1];
    }
  }

  lemma {:induction false} EncodeAppend(a: Text, b: Text)
    requires WellFormedText(a)
    ensures Encode(a + b) == Encode(a) + Encode(b)
  {
    hide EncodePoint, EncodeUnit, PairPoint;
    if a == [] {
      assert a + b == b;
    } else {
      StartOfAppend(a, b);
      if StartsWithPair(a) {
        EncodeAppend(a[2..], b);
      } else {
        EncodeAppend(a[1..], b);
      }
    }
  }

  /** No text is longer than its bytes. */
  lemma {:induction false} EncodeLength(t: Text)
    ensures |Encode(t)| >= |t|
  {
    hide PairPoint;
    if t != [] {
      if StartsWithPair(t) {
        EncodeLength(t[2..]);
      } else {
        EncodeLength(t[1..]);
      }
    }
  }

  /** The bytes of the pair or unit in front. */
  function EncodeFirst(t: Text): Bytes
    requires t != []
  {
    if StartsWithPair(t) then EncodePoint(PairPoint(t[0], t[1]))
    else if IsHighSurrogate(t[0]) || IsLowSurrogate(t[0]) then [0xEF, 0xBF, 0xBD]
    else EncodeUnit(t[0])
  }

  lemma EncodeStep(t: Text)
    requires t != []
    ensures Encode(t) == EncodeFirst(t) + Encode(if StartsWithPair(t) then t[2..] else t[1..])
  {
    hide EncodePoint, EncodeUnit, PairPoint, IsHighSurrogate, IsLowSurrogate;
  }

  /** The bytes split wherever no low surrogate starts the second part. */
  lemma {:induction false} EncodeSplit(a: Text, b: Text)
    requires b != [] && !IsLowSurrogate(b[0])
    ensures Encode(a + b) == Encode(a) + Encode(b)
  {
    hide Encode, EncodeFirst, StartsWithPair;
    if a == [] {
      assert a + b == b;
      EncodeEmpty();
    } else {
      StartOfSplit(a, b);
      EncodeStep(a);
      EncodeStep(a + b);
      var rest := if StartsWithPair(a) then a[2..] else a[1..];
      EncodeSplit(rest, b);
      Regroup(EncodeFirst(a), Encode(rest), Encode(b));
    }
  }

  lemma EncodeEmpty()
    ensures Encode([]) == []
  {
  }

  lemma StartOfSplit(a: Text, b: Text)
    requires a != [] && b != [] && !IsLowSurrogate(b[0])
    ensures EncodeFirst(a + b) == EncodeFirst(a)
    ensures StartsWithPair(a + b) <==> StartsWithPair(a)
    ensures StartsWithPair(a) ==> (a + b)[2..] == a[2..] + b
    ensures (a + b)[0] == a[0] && (a + b)[1..] == a[1..] + b
  {
    hide IsHighSurrogate, IsLowSurrogate;
    if |a| >= 2 {
      assert (a + b)[1] == a[1];
    } else if |a + b| >= 2 {
      assert (a + b)[1] == b[0];
    }
  }

  /** An ASCII unit separates the bytes before it from those after it, lone surrogates or not. */
  lemma EncodeAt(t: Text, i: nat)
    requires i < |t| && t[i] < 0x80
    ensures Encode(t) == Encode(t[..i]) + [t[i] as int] + Encode(t[i + 1..])
  {
    hide Encode;
    var front, rest := t[..i], t[i + 1..];
    CutAt(t, i);
    EncodeSplit(front, [t[i]] + rest);
    EncodeAscii(t[i], rest);
    Regroup(Encode(front), [t[i] as int], Encode(rest));
  }

  lemma CutAt(t: Text, i: nat)
    requires i < |t|
    ensures t == t[..i] + ([t[i]] + t[i + 1..])
  {
  }

  lemma EncodeAscii(u: CodeUnit, rest: Text)
    requires u < 0x80
    ensures Encode([u] + rest) == [u as int] + Encode(rest)
  {
    hide EncodePoint, PairPoint;
    Uncons(u, rest);
    var t := [u] + rest;
    assert !StartsWithPair(t);
  }

  lemma {:induction false} WellFormedAppend(a: Text, b: Text)
    requires WellFormedText(a) && WellFormedText(b)
    ensures WellFormedText(a + b)
  {
    if a == [] {
      assert a + b == b;
    } else {
      StartOfAppend(a, b);
      if StartsWithPair(a) {
        WellFormedAppend(a[2..], b);
      } else {
        WellFormedAppend(a[1..], b);
      }
    }
  }

  lemma {:induction false} AsciiWellFormed(t: Text)
    requires forall i :: 0 <= i < |t| ==> t[i] < 0x80
    ensures WellFormedText(t)
  {
    if t != [] {
      AsciiWellFormed(t[1..]);
    }
  }

  // ---- Printed JSON has no lone surrogate ----

  lemma {:induction false} EscapeWellFormed(s: Text)
    ensures WellFormedText(Escape(s))
  {
    if s == [] {
    } else if |s| >= 2 && IsHighSurrogate(s[0]) && IsLowSurrogate(s[1]) {
      EscapeWellFormed(s[2..]);
      assert (s[..2] + Escape(s[2..]))[2..] == Escape(s[2..]);
    } else {
      EscapeWellFormed(s[1..]);
      EscapedUnitWellFormed(s[0]);
      WellFormedAppend(EscapeUnit(s[0]), Escape(s[1..]));
    }
  }

  lemma EscapedUnitWellFormed(u: CodeUnit)
    ensures WellFormedText(EscapeUnit(u))
  {
    if |EscapeUnit(u)| > 1 {
      AsciiWellFormed(EscapeUnit(u));
    } else {
      assert [u][1..] == [];
    }
  }

  lemma Enclosed(open: CodeUnit, t: Text, close: CodeUnit)
    requires open < 0x80 && close < 0x80 && WellFormedText(t)
    ensures WellFormedText([open] + t + [close])
  {
    AsciiWellFormed([open]);
    AsciiWellFormed([close]);
    WellFormedAppend([open], t);
    WellFormedAppend([open] + t, [close]);
  }

  lemma {:induction false} StringifyWellFormed(v: Json)
    requires WellSpelled(v)
    ensures WellFormedText(Stringify(v))
    decreases v, 1
  {
    match v
    case Null => AsciiWellFormed(NULL_TEXT);
    case Bool(b) =>
      AsciiWellFormed(TRUE_TEXT);
      AsciiWellFormed(FALSE_TEXT);
    case Number(token) =>
      NumberUnits(token);
      AsciiWellFormed(token);
    case String(s) =>
      EscapeWellFormed(s);
      Enclosed(QUOTE, Escape(s), QUOTE);
    case Array(items) =>
      ItemsWellFormed(items);
      Enclosed(OPEN_BRACKET, StringifyItems(items), CLOSE_BRACKET);
    case Object(members) =>
      MembersWellFormed(members);
      Enclosed(OPEN_BRACE, StringifyMembers(members), CLOSE_BRACE);
  }

  lemma {:induction false} ItemsWellFormed(items: seq<Json>)
    requires forall i :: 0 <= i < |items| ==> WellSpelled(items[i])
    ensures WellFormedText(StringifyItems(items))
    decreases items, 0
  {
    if items != [] {
      StringifyWellFormed(items[0]);
      if |items| > 1 {
        ItemsWellFormed(items[1..]);
        AsciiWellFormed([COMMA]);
        WellFormedAppend(Stringify(items[0]), [COMMA]);
        WellFormedAppend(Stringify(items[0]) + [COMMA], StringifyItems(items[1..]));
      }
    }
  }

  lemma {:induction false} MembersWellFormed(members: seq<Keyed<Json>>)
    requires forall i :: 0 <= i < |members| ==> WellSpelled(members[i].val)
    ensures WellFormedText(StringifyMembers(members))
    decreases members, 0
  {
    if members != [] {
      var m := members[0];
      EscapeWellFormed(m.key);
      Enclosed(QUOTE, Escape(m.key), QUOTE);
      StringifyWellFormed(m.val);
      AsciiWellFormed([COLON]);
      WellFormedAppend(Quote(m.key), [COLON]);
      WellFormedAppend(Quote(m.key) + [COLON], Stringify(m.val));
      if |members| > 1 {
        MembersWellFormed(members[1..]);
        AsciiWellFormed([COMMA]);
        WellFormedAppend(StringifyMember(m), [COMMA]);
        WellFormedAppend(StringifyMember(m) + [COMMA], StringifyMembers(members[1..]));
      }
    }
  }
}
