/**
 JSON text: the RFC 8259 grammar as a parser that keeps every member it reads
 (repeated names included), and the ECMAScript printer `JSON.stringify`.
 Numbers stay uninterpreted: a number is the token that spells it.
 */
module Json {
  import opened Wrappers
  import opened Utf16

  datatype Json =
    | Null
    | Bool(b: bool)
    | Number(token: Text)
    | String(s: Text)
    | Array(items: seq<Json>)
    | Object(members: seq<Keyed<Json>>)

  const QUOTE: CodeUnit := 0x22
  const BACKSLASH: CodeUnit := 0x5C
  const SLASH: CodeUnit := 0x2F
  const COMMA: CodeUnit := 0x2C
  const COLON: CodeUnit := 0x3A
  const DOT: CodeUnit := 0x2E
  const MINUS: CodeUnit := 0x2D
  const PLUS: CodeUnit := 0x2B
  const OPEN_BRACE: CodeUnit := 0x7B
  const CLOSE_BRACE: CodeUnit := 0x7D
  const OPEN_BRACKET: CodeUnit := 0x5B
  const CLOSE_BRACKET: CodeUnit := 0x5D
  const LOWER_U: CodeUnit := 0x75

  const NULL_TEXT: Text := [0x6E, 0x75, 0x6C, 0x6C]
  const TRUE_TEXT: Text := [0x74, 0x72, 0x75, 0x65]
  const FALSE_TEXT: Text := [0x66, 0x61, 0x6C, 0x73, 0x65]

  // ---- Tokens ----

  predicate IsSpace(c: CodeUnit) {
    c == 0x20 || c == 0x09 || c == 0x0A || c == 0x0D
  }

  function SkipSpace(t: Text): (r: Text)
    ensures |r| <= |t|
  {
    if t != [] && IsSpace(t[0]) then SkipSpace(t[1..]) else t
  }

  predicate IsDigit(c: CodeUnit) {
    0x30 <= c <= 0x39
  }

  /** How many digits `t` starts with. */
  function DigitRun(t: Text): (n: nat)
    ensures n <= |t|
  {
    if t != [] && IsDigit(t[0]) then 1 + DigitRun(t[1..]) else 0
  }

  function IntegerLength(t: Text): (n: nat)
    ensures n <= |t|
  {
    if t != [] && t[0] == 0x30 then 1 else DigitRun(t)
  }

  function FractionLength(t: Text): (n: nat)
    ensures n <= |t|
  {
    if t != [] && t[0] == DOT && DigitRun(t[1..]) > 0 then 1 + DigitRun(t[1..]) else 0
  }

  function ExponentLength(t: Text): (n: nat)
    ensures n <= |t|
  {
    if t != [] && (t[0] == 0x65 || t[0] == 0x45) then
      var sign: nat := if |t| > 1 && (t[1] == PLUS || t[1] == MINUS) then 1 else 0;
      var digits := DigitRun(t[1 + sign..]);
      if digits > 0 then 1 + sign + digits else 0
    else 0
  }

  function DecimalLength(t: Text): (n: nat)
    ensures n <= |t|
  {
    FractionLength(t) + ExponentLength(t[FractionLength(t)..])
  }

  /** The length of the number token `t` starts with; zero when there is none. */
  function NumberLength(t: Text): (n: nat)
    ensures n <= |t|
  {
    var minus: nat := if t != [] && t[0] == MINUS then 1 else 0;
    var integer := IntegerLength(t[minus..]);
    if integer == 0 then 0 else minus + integer + DecimalLength(t[minus + integer..])
  }

  predicate IsNumberToken(token: Text) {
    token != [] && NumberLength(token) == |token|
  }

  /** What cannot extend a number token: the end of the text or a non-number unit. */
  predicate StopsNumber(t: Text) {
    t != [] ==> !IsDigit(t[0]) && t[0] != DOT && t[0] != 0x65 && t[0] != 0x45
  }

  function HexDigit(d: nat): CodeUnit
    requires d < 16
  {
    if d < 10 then 0x30 + d else 0x57 + d
  }

  function HexValue(c: CodeUnit): (v: Option<nat>)
    ensures v.Some? ==> v.value < 16
  {
    if IsDigit(c) then Some(c - 0x30)
    else if 0x61 <= c <= 0x66 then Some(c - 0x57)
    else if 0x41 <= c <= 0x46 then Some(c - 0x37)
    else None
  }

  function Hex4(u: CodeUnit): (t: Text)
    ensures |t| == 4
  {
    [HexDigit(u / 0x1000), HexDigit(u / 0x100 % 16), HexDigit(u / 16 % 16), HexDigit(u % 16)]
  }

  function ParseHex4(t: Text): (r: Option<CodeUnit>)
    requires |t| >= 4
  {
    var a :- HexValue(t[0]);
    var b :- HexValue(t[1]);
    var c :- HexValue(t[2]);
    var d :- HexValue(t[3]);
    Some(a * 0x1000 + b * 0x100 + c * 16 + d)
  }

  /** The unit a two-unit escape stands for. */
  function ShortEscape(c: CodeUnit): Option<CodeUnit> {
    if c == QUOTE || c == BACKSLASH || c == SLASH then Some(c)
    else if c == 0x62 then Some(0x08)
    else if c == 0x66 then Some(0x0C)
    else if c == 0x6E then Some(0x0A)
    else if c == 0x72 then Some(0x0D)
    else if c == 0x74 then Some(0x09)
    else None
  }

  // ---- The parser ----

  /** The string literal whose opening quote was just read. */
  function ParseString(t: Text): (r: Option<(Text, Text)>)
    ensures r.Some? ==> |r.value.1| < |t|
  {
    if t == [] then None
    else if t[0] == QUOTE then Some(([], t[1..]))
    else if t[0] == BACKSLASH then
      if |t| >= 6 && t[1] == LOWER_U then
        var u :- ParseHex4(t[2..]);
        var tail :- ParseString(t[6..]);
        Some(([u] + tail.0, tail.1))
      else if |t| >= 2 then
        var u :- ShortEscape(t[1]);
        var tail :- ParseString(t[2..]);
        Some(([u] + tail.0, tail.1))
      else None
    else if t[0] < 0x20 then None
    else
      var tail :- ParseString(t[1..]);
      Some(([t[0]] + tail.0, tail.1))
  }

  function ParseValue(t: Text): (r: Option<(Json, Text)>)
    ensures r.Some? ==> |r.value.1| < |t|
    decreases |t|, 1
  {
    if t == [] then None
    else if t[0] == OPEN_BRACE then
      var u := SkipSpace(t[1..]);
      if u != [] && u[0] == CLOSE_BRACE then Some((Object([]), u[1..]))
      else
        var r :- ParseMembers(u);
        Some((Object(r.0), r.1))
    else if t[0] == OPEN_BRACKET then
      var u := SkipSpace(t[1..]);
      if u != [] && u[0] == CLOSE_BRACKET then Some((Array([]), u[1..]))
      else
        var r :- ParseItems(u);
        Some((Array(r.0), r.1))
    else if t[0] == QUOTE then
      var r :- ParseString(t[1..]);
      Some((String(r.0), r.1))
    else if NULL_TEXT <= t then Some((Null, t[4..]))
    else if TRUE_TEXT <= t then Some((Bool(true), t[4..]))
    else if FALSE_TEXT <= t then Some((Bool(false), t[5..]))
    else
      var n := NumberLength(t);
      if n == 0 then None else Some((Number(t[..n]), t[n..]))
  }

  /** One or more comma-separated values up to the closing bracket. */
  function ParseItems(t: Text): (r: Option<(seq<Json>, Text)>)
    ensures r.Some? ==> |r.value.1| < |t|
    decreases |t|, 2
  {
    var head :- ParseValue(t);
    var u := SkipSpace(head.1);
    if u == [] then None
    else if u[0] == CLOSE_BRACKET then Some(([head.0], u[1..]))
    else if u[0] == COMMA then
      var tail :- ParseItems(SkipSpace(u[1..]));
      Some(([head.0] + tail.0, tail.1))
    else None
  }

  /** One or more comma-separated members up to the closing brace. */
  function ParseMembers(t: Text): (r: Option<(seq<Keyed<Json>>, Text)>)
    ensures r.Some? ==> |r.value.1| < |t|
    decreases |t|, 2
  {
    if t == [] || t[0] != QUOTE then None
    else
      var name :- ParseString(t[1..]);
      var afterName := SkipSpace(name.1);
      if afterName == [] || afterName[0] != COLON then None
      else
        var value :- ParseValue(SkipSpace(afterName[1..]));
        var member := Keyed(name.0, value.0);
        var u := SkipSpace(value.1);
        if u == [] then None
        else if u[0] == CLOSE_BRACE then Some(([member], u[1..]))
        else if u[0] == COMMA then
          var tail :- ParseMembers(SkipSpace(u[1..]));
          Some(([member] + tail.0, tail.1))
        else None
  }

  /** `JSON.parse`, keeping repeated members. */
  function Parse(t: Text): Option<Json> {
    var r :- ParseValue(SkipSpace(t));
    if SkipSpace(r.1) == [] then Some(r.0) else None
  }

  // ---- The printer ----

  predicate IsHighSurrogate(u: CodeUnit) {
    0xD800 <= u <= 0xDBFF
  }

  predicate IsLowSurrogate(u: CodeUnit) {
    0xDC00 <= u <= 0xDFFF
  }

  function EscapeUnit(u: CodeUnit): Text {
    if u == QUOTE || u == BACKSLASH then [BACKSLASH, u]
    else if u == 0x08 then [BACKSLASH, 0x62]
    else if u == 0x09 then [BACKSLASH, 0x74]
    else if u == 0x0A then [BACKSLASH, 0x6E]
    else if u == 0x0C then [BACKSLASH, 0x66]
    else if u == 0x0D then [BACKSLASH, 0x72]
    else if u < 0x20 || IsHighSurrogate(u) || IsLowSurrogate(u) then
      [BACKSLASH, LOWER_U] + Hex4(u)
    else [u]
  }

  /** Minimal escaping; a surrogate pair stays as it is, a lone surrogate is escaped. */
  function Escape(s: Text): Text {
    if s == [] then []
    else if |s| >= 2 && IsHighSurrogate(s[0]) && IsLowSurrogate(s[1]) then s[..2] + Escape(s[2..])
    else EscapeUnit(s[0]) + Escape(s[1..])
  }

  function Quote(s: Text): Text {
    [QUOTE] + Escape(s) + [QUOTE]
  }

  /** `JSON.stringify` of a value whose numbers are already spelled. */
  function Stringify(v: Json): Text
    decreases v, 1
  {
    match v
    case Null => NULL_TEXT
    case Bool(b) => if b then TRUE_TEXT else FALSE_TEXT
    case Number(token) => token
    case String(s) => Quote(s)
    case Array(items) => [OPEN_BRACKET] + StringifyItems(items) + [CLOSE_BRACKET]
    case Object(members) => [OPEN_BRACE] + StringifyMembers(members) + [CLOSE_BRACE]
  }

  function StringifyItems(items: seq<Json>): Text
    decreases items, 0
  {
    if items == [] then []
    else if |items| == 1 then Stringify(items[0])
    else Stringify(items[0]) + [COMMA] + StringifyItems(items[1..])
  }

  function StringifyMember(m: Keyed<Json>): Text
    decreases m, 2
  {
    Quote(m.key) + [COLON] + Stringify(m.val)
  }

  function StringifyMembers(members: seq<Keyed<Json>>): Text
    decreases members, 0
  {
    if members == [] then []
    else if |members| == 1 then StringifyMember(members[0])
    else StringifyMember(members[0]) + [COMMA] + StringifyMembers(members[1..])
  }

  /** Every number in the value is spelled by a number token. */
  predicate WellSpelled(v: Json) {
    match v
    case Number(token) => IsNumberToken(token)
    case Array(items) => forall i :: 0 <= i < |items| ==> WellSpelled(items[i])
    case Object(members) => forall i :: 0 <= i < |members| ==> WellSpelled(members[i].val)
    case _ => true
  }

  // ---- The units a number token is made of ----

  predicate IsNumberUnit(c: CodeUnit) {
    IsDigit(c) || c == MINUS || c == PLUS || c == DOT || c == 0x65 || c == 0x45
  }

  lemma {:induction false} DigitUnits(t: Text)
    ensures forall i :: 0 <= i < DigitRun(t) ==> IsNumberUnit(t[i])
  {
    if t != [] && IsDigit(t[0]) {
      DigitUnits(t[1..]);
    }
  }

  lemma DecimalUnits(t: Text)
    ensures forall i :: 0 <= i < DecimalLength(t) ==> IsNumberUnit(t[i])
  {
    var f := FractionLength(t);
    if f > 0 {
      DigitUnits(t[1..]);
    }
    var u := t[f..];
    var sign: nat := if |u| > 1 && (u[1] == PLUS || u[1] == MINUS) then 1 else 0;
    if ExponentLength(u) > 0 {
      DigitUnits(u[1 + sign..]);
    }
    forall i | 0 <= i < DecimalLength(t) ensures IsNumberUnit(t[i]) {
      if 1 <= i < f {
        assert t[i] == t[1..][i - 1];
      } else if f <= i {
        assert t[i] == u[i - f];
        if i - f >= 1 + sign {
          assert u[i - f] == u[1 + sign..][i - f - 1 - sign];
        }
      }
    }
  }

  lemma IntegerUnits(t: Text)
    ensures forall i :: 0 <= i < IntegerLength(t) ==> IsNumberUnit(t[i])
  {
    DigitUnits(t);
  }

  lemma NumberUnits(t: Text)
    ensures forall i :: 0 <= i < NumberLength(t) ==> IsNumberUnit(t[i])
  {
    hide IntegerLength, DecimalLength, IsNumberUnit;
    var minus: nat := if t != [] && t[0] == MINUS then 1 else 0;
    var whole := minus + IntegerLength(t[minus..]);
    IntegerUnits(t[minus..]);
    DecimalUnits(t[whole..]);
    forall i | 0 <= i < NumberLength(t) ensures IsNumberUnit(t[i]) {
      if i < minus {
        assert IsNumberUnit(MINUS) by {
          MinusUnit();
        }
      } else if i < whole {
        assert t[i] == t[minus..][i - minus];
      } else {
        assert t[i] == t[whole..][i - whole];
      }
    }
  }

  lemma MinusUnit()
    ensures IsNumberUnit(MINUS)
  {
  }

  // ---- Reading back what was printed ----

  lemma HexDigitRoundTrip(d: nat)
    requires d < 16
    ensures HexValue(HexDigit(d)) == Some(d)
  {
  }

  lemma HexPlaces(u: CodeUnit)
    ensures u == u / 0x1000 * 0x1000 + u / 0x100 % 16 * 0x100 + u / 16 % 16 * 16 + u % 16
    ensures u / 0x1000 < 16
  {
    var a, b, c := u / 16, u / 0x100, u / 0x1000;
    assert u == 16 * a + u % 16;
    assert b == a / 16 && a == 16 * b + a % 16;
    assert c == b / 16 && b == 16 * c + b % 16;
  }

  lemma HexRoundTrip(u: CodeUnit, rest: Text)
    ensures ParseHex4(Hex4(u) + rest) == Some(u)
  {
    HexPlaces(u);
    var a, b, c, d := u / 0x1000, u / 0x100 % 16, u / 16 % 16, u % 16;
    HexDigitRoundTrip(a);
    HexDigitRoundTrip(b);
    HexDigitRoundTrip(c);
    HexDigitRoundTrip(d);
  }

  lemma PlainUnit(u: CodeUnit, rest: Text)
    requires u >= 0x20 && u != QUOTE && u != BACKSLASH
    requires ParseString(rest).Some?
    ensures ParseString([u] + rest) ==
            Some(([u] + ParseString(rest).value.0, ParseString(rest).value.1))
  {
    assert ([u] + rest)[1..] == rest;
  }

  lemma HexEscape(u: CodeUnit, rest: Text)
    requires ParseString(rest).Some?
    ensures ParseString([BACKSLASH, LOWER_U] + Hex4(u) + rest) ==
            Some(([u] + ParseString(rest).value.0, ParseString(rest).value.1))
  {
    hide ParseHex4;
    HexRoundTrip(u, rest);
    var t := [BACKSLASH, LOWER_U] + Hex4(u) + rest;
    assert t[2..] == Hex4(u) + rest && t[6..] == rest;
  }

  lemma PairEscape(c: CodeUnit, rest: Text)
    requires c != LOWER_U && ShortEscape(c).Some? && ParseString(rest).Some?
    ensures ParseString([BACKSLASH, c] + rest) ==
            Some(([ShortEscape(c).value] + ParseString(rest).value.0, ParseString(rest).value.1))
  {
    hide ShortEscape;
    assert ([BACKSLASH, c] + rest)[2..] == rest;
  }

  lemma EscapeUnitRoundTrip(u: CodeUnit, rest: Text)
    requires ParseString(rest).Some?
    ensures ParseString(EscapeUnit(u) + rest) ==
            Some(([u] + ParseString(rest).value.0, ParseString(rest).value.1))
  {
    hide ParseString, Hex4;
    if |EscapeUnit(u)| == 2 {
      PairEscape(EscapeUnit(u)[1], rest);
    } else if |EscapeUnit(u)| == 1 {
      PlainUnit(u, rest);
    } else {
      HexEscape(u, rest);
    }
  }

  lemma ClosingQuote(rest: Text)
    ensures ParseString([QUOTE] + rest) == Some(([], rest))
  {
    assert ([QUOTE] + rest)[1..] == rest;
  }

  lemma {:induction false} StringRoundTrip(s: Text, rest: Text)
    ensures ParseString(Escape(s) + ([QUOTE] + rest)) == Some((s, rest))
  {
    hide ParseString, EscapeUnit;
    var close := [QUOTE] + rest;
    if s == [] {
      ClosingQuote(rest);
      assert Escape(s) + close == close;
    } else if |s| >= 2 && IsHighSurrogate(s[0]) && IsLowSurrogate(s[1]) {
      var tail := Escape(s[2..]) + close;
      StringRoundTrip(s[2..], rest);
      PlainUnit(s[1], tail);
      PlainUnit(s[0], [s[1]] + tail);
      Regroup(s[..2], Escape(s[2..]), close);
      PairInFront(s, tail);
      PairInFront(s, s[2..]);
      assert s == s[..2] + s[2..];
    } else {
      var tail := Escape(s[1..]) + close;
      StringRoundTrip(s[1..], rest);
      EscapeUnitRoundTrip(s[0], tail);
      Regroup(EscapeUnit(s[0]), Escape(s[1..]), close);
      HeadAndTail(s);
    }
  }

  lemma PairInFront(s: Text, t: Text)
    requires |s| >= 2
    ensures s[..2] + t == [s[0]] + ([s[1]] + t)
  {
  }

  lemma {:induction false} DigitRunStops(a: Text, rest: Text)
    requires rest != [] ==> !IsDigit(rest[0])
    ensures DigitRun(a + rest) == DigitRun(a)
  {
    if a == [] {
      assert a + rest == rest;
    } else {
      DigitRunStops(a[1..], rest);
      assert (a + rest)[1..] == a[1..] + rest;
    }
  }

  lemma ExponentStops(a: Text, rest: Text)
    requires StopsNumber(rest)
    ensures ExponentLength(a) == |a| ==> ExponentLength(a + rest) == |a|
  {
    if a != [] && ExponentLength(a) == |a| {
      var sign: nat := if |a| > 1 && (a[1] == PLUS || a[1] == MINUS) then 1 else 0;
      DigitRunStops(a[1 + sign..], rest);
      assert (a + rest)[1 + sign..] == a[1 + sign..] + rest;
    } else if a == [] {
      assert a + rest == rest;
    }
  }

  lemma FractionStops(a: Text, rest: Text)
    requires StopsNumber(rest)
    ensures FractionLength(a + rest) == FractionLength(a)
  {
    if a == [] {
      assert a + rest == rest;
    } else {
      DigitRunStops(a[1..], rest);
      assert (a + rest)[1..] == a[1..] + rest;
    }
  }

  lemma DecimalStops(a: Text, rest: Text)
    requires StopsNumber(rest) && DecimalLength(a) == |a|
    ensures DecimalLength(a + rest) == |a|
  {
    FractionStops(a, rest);
    var f := FractionLength(a);
    ExponentStops(a[f..], rest);
    assert (a + rest)[f..] == a[f..] + rest;
  }

  lemma IntegerStops(a: Text, rest: Text)
    requires StopsNumber(rest)
    ensures IntegerLength(a + rest) == IntegerLength(a)
  {
    DigitRunStops(a, rest);
    if a == [] {
      assert a + rest == rest;
    }
  }

  lemma NumberRoundTrip(token: Text, rest: Text)
    requires IsNumberToken(token) && StopsNumber(rest)
    ensures NumberLength(token + rest) == |token|
  {
    hide IntegerLength, DecimalLength, StopsNumber;
    var minus: nat := if token[0] == MINUS then 1 else 0;
    var integer := IntegerLength(token[minus..]);
    IntegerStops(token[minus..], rest);
    assert (token + rest)[minus..] == token[minus..] + rest;
    var decimal := token[minus + integer..];
    DecimalStops(decimal, rest);
    assert (token + rest)[minus + integer..] == decimal + rest;
  }

  lemma NumberStarts(token: Text)
    requires IsNumberToken(token)
    ensures token != [] && (token[0] == MINUS || IsDigit(token[0]))
  {
  }

  /** No printed value starts with white space, so the parser's skips do nothing. */
  lemma PrintedStart(v: Json, rest: Text)
    requires WellSpelled(v)
    ensures Stringify(v) != []
    ensures SkipSpace(Stringify(v) + rest) == Stringify(v) + rest
    ensures Stringify(v)[0] != CLOSE_BRACKET
  {
    if v.Number? {
      NumberStarts(v.token);
    }
  }

  lemma LiteralRoundTrip(v: Json, rest: Text)
    requires v.Null? || v.Bool?
    ensures ParseValue(Stringify(v) + rest) == Some((v, rest))
  {
    var t := Stringify(v) + rest;
    assert t[|Stringify(v)|..] == rest;
    assert t[..|Stringify(v)|] == Stringify(v);
  }

  lemma NumberValueRoundTrip(token: Text, rest: Text)
    requires IsNumberToken(token) && StopsNumber(rest)
    ensures ParseValue(token + rest) == Some((Number(token), rest))
  {
    hide IsNumberToken, NumberLength, StopsNumber;
    var t := token + rest;
    NumberStarts(token);
    NumberRoundTrip(token, rest);
    assert t[0] == token[0];
    assert t[|token|..] == rest && t[..|token|] == token;
  }

  lemma StringValueRoundTrip(s: Text, rest: Text)
    ensures ParseValue(Quote(s) + rest) == Some((String(s), rest))
  {
    hide ParseString, Escape, SkipSpace, ParseItems, ParseMembers, NumberLength;
    StringRoundTrip(s, rest);
    assert (Quote(s) + rest)[1..] == Escape(s) + ([QUOTE] + rest);
  }

  lemma ArrayValue(items: seq<Json>, inner: Text, rest: Text)
    requires inner != [] && inner[0] != CLOSE_BRACKET && SkipSpace(inner) == inner
    requires ParseItems(inner) == Some((items, rest))
    ensures ParseValue([OPEN_BRACKET] + inner) == Some((Array(items), rest))
  {
    assert ([OPEN_BRACKET] + inner)[1..] == inner;
  }

  lemma ObjectValue(members: seq<Keyed<Json>>, inner: Text, rest: Text)
    requires inner != [] && inner[0] == QUOTE
    requires ParseMembers(inner) == Some((members, rest))
    ensures ParseValue([OPEN_BRACE] + inner) == Some((Object(members), rest))
  {
    assert ([OPEN_BRACE] + inner)[1..] == inner;
  }

  lemma EmptyContainers(rest: Text)
    ensures ParseValue([OPEN_BRACKET] + [CLOSE_BRACKET] + rest) == Some((Array([]), rest))
    ensures ParseValue([OPEN_BRACE] + [CLOSE_BRACE] + rest) == Some((Object([]), rest))
  {
    assert ([OPEN_BRACKET] + [CLOSE_BRACKET] + rest)[1..] == [CLOSE_BRACKET] + rest;
    assert ([OPEN_BRACE] + [CLOSE_BRACE] + rest)[1..] == [CLOSE_BRACE] + rest;
    assert ([CLOSE_BRACKET] + rest)[1..] == rest && ([CLOSE_BRACE] + rest)[1..] == rest;
  }

  /** The parser reads back exactly the printed value and leaves exactly the rest. */
  lemma {:induction false} ValueRoundTrip(v: Json, rest: Text)
    requires WellSpelled(v) && StopsNumber(rest)
    ensures ParseValue(Stringify(v) + rest) == Some((v, rest))
    decreases v, 2
  {
    hide ParseValue, Quote, IsNumberToken, StopsNumber;
    match v
    case Null => LiteralRoundTrip(v, rest);
    case Bool(b) => LiteralRoundTrip(v, rest);
    case Number(token) => NumberValueRoundTrip(token, rest);
    case String(s) => StringValueRoundTrip(s, rest);
    case Array(items) => ArrayRoundTrip(items, rest);
    case Object(members) => ObjectRoundTrip(members, rest);
  }

  lemma {:induction false} ArrayRoundTrip(items: seq<Json>, rest: Text)
    requires forall i :: 0 <= i < |items| ==> WellSpelled(items[i])
    ensures ParseValue(Stringify(Array(items)) + rest) == Some((Array(items), rest))
    decreases items, 1
  {
    hide ParseValue, ParseItems, SkipSpace, WellSpelled;
    if items == [] {
      EmptyContainers(rest);
      assert Stringify(Array(items)) == [OPEN_BRACKET] + [CLOSE_BRACKET];
    } else {
      var inner := StringifyItems(items) + ([CLOSE_BRACKET] + rest);
      ItemsRoundTrip(items, rest);
      ItemsStart(items, [CLOSE_BRACKET] + rest);
      ArrayValue(items, inner, rest);
      assert Stringify(Array(items)) + rest == [OPEN_BRACKET] + inner;
    }
  }

  lemma {:induction false} ObjectRoundTrip(members: seq<Keyed<Json>>, rest: Text)
    requires forall i :: 0 <= i < |members| ==> WellSpelled(members[i].val)
    ensures ParseValue(Stringify(Object(members)) + rest) == Some((Object(members), rest))
    decreases members, 1
  {
    hide ParseValue, ParseMembers, SkipSpace, WellSpelled;
    if members == [] {
      EmptyContainers(rest);
      assert Stringify(Object(members)) == [OPEN_BRACE] + [CLOSE_BRACE];
    } else {
      var inner := StringifyMembers(members) + ([CLOSE_BRACE] + rest);
      MembersRoundTrip(members, rest);
      ObjectValue(members, inner, rest);
      assert Stringify(Object(members)) + rest == [OPEN_BRACE] + inner;
    }
  }

  lemma ItemsStart(items: seq<Json>, rest: Text)
    requires items != [] && WellSpelled(items[0])
    ensures StringifyItems(items) != [] && StringifyItems(items)[0] != CLOSE_BRACKET
    ensures SkipSpace(StringifyItems(items) + rest) == StringifyItems(items) + rest
  {
    PrintedStart(items[0], []);
    assert (StringifyItems(items) + rest)[0] == Stringify(items[0])[0];
    assert (Stringify(items[0]) + [])[0] == Stringify(items[0])[0];
  }

  lemma {:induction false} ItemsRoundTrip(items: seq<Json>, rest: Text)
    requires items != [] && forall i :: 0 <= i < |items| ==> WellSpelled(items[i])
    ensures ParseItems(StringifyItems(items) + ([CLOSE_BRACKET] + rest)) == Some((items, rest))
    decreases items, 0
  {
    hide ParseValue, Stringify, WellSpelled;
    var close := [CLOSE_BRACKET] + rest;
    if |items| == 1 {
      ValueRoundTrip(items[0], close);
      assert items == [items[0]];
    } else {
      var tail := StringifyItems(items[1..]) + close;
      ValueRoundTrip(items[0], [COMMA] + tail);
      assert StringifyItems(items) + close == Stringify(items[0]) + ([COMMA] + tail);
      ItemsRoundTrip(items[1..], rest);
      ItemsStart(items[1..], close);
      assert ([COMMA] + tail)[1..] == tail;
      assert items == [items[0]] + items[1..];
    }
  }

  /** One member and what follows it, as the parser sees it. */
  lemma MemberText(m: Keyed<Json>, tail: Text)
    ensures StringifyMember(m) + tail ==
            [QUOTE] + (Escape(m.key) + ([QUOTE] + ([COLON] + (Stringify(m.val) + tail))))
  {
    hide Stringify, Escape;
  }

  /** One member read off the head of a member list. */
  lemma ParseFirstMember(m: Keyed<Json>, tail: Text)
    requires ParseValue(Stringify(m.val) + tail) == Some((m.val, tail))
    requires SkipSpace(Stringify(m.val) + tail) == Stringify(m.val) + tail
    requires tail != [] && (tail[0] == COMMA || tail[0] == CLOSE_BRACE)
    requires tail[0] == COMMA ==> ParseMembers(SkipSpace(tail[1..])).Some?
    ensures ParseMembers(StringifyMember(m) + tail) ==
            if tail[0] == CLOSE_BRACE then Some(([m], tail[1..]))
            else Some(([m] + ParseMembers(SkipSpace(tail[1..])).value.0, ParseMembers(SkipSpace(tail[1..])).value.1))
  {
    hide ParseValue, ParseString, Stringify, StringifyMember, Escape;
    var value := Stringify(m.val) + tail;
    var t := StringifyMember(m) + tail;
    MemberText(m, tail);
    Uncons(QUOTE, Escape(m.key) + ([QUOTE] + ([COLON] + value)));
    StringRoundTrip(m.key, [COLON] + value);
    Uncons(COLON, value);
    assert SkipSpace([COLON] + value) == [COLON] + value && SkipSpace(tail) == tail;
  }

  /** The member list and its closing brace, first member apart. */
  lemma MembersText(members: seq<Keyed<Json>>, close: Text)
    requires members != []
    ensures StringifyMembers(members) + close ==
            StringifyMember(members[0]) +
              (if |members| == 1 then close else [COMMA] + (StringifyMembers(members[1..]) + close))
  {
    hide StringifyMember;
  }

  lemma {:induction false} MembersRoundTrip(members: seq<Keyed<Json>>, rest: Text)
    requires members != [] && forall i :: 0 <= i < |members| ==> WellSpelled(members[i].val)
    ensures var t := StringifyMembers(members) + ([CLOSE_BRACE] + rest);
            t[0] == QUOTE && SkipSpace(t) == t && ParseMembers(t) == Some((members, rest))
    decreases members, 0
  {
    hide ParseValue, ParseMembers, Stringify, StringifyMember, StringifyMembers, WellSpelled, Escape;
    var close := [CLOSE_BRACE] + rest;
    var m := members[0];
    var more := StringifyMembers(members[1..]) + close;
    var tail := if |members| == 1 then close else [COMMA] + more;
    MembersText(members, close);
    MemberText(m, tail);
    PrintedStart(m.val, tail);
    ValueRoundTrip(m.val, tail);
    HeadAndTail(members);
    Uncons(COMMA, more);
    Uncons(CLOSE_BRACE, rest);
    if |members| > 1 {
      MembersRoundTrip(members[1..], rest);
    } else {
      assert members == [m];
    }
    ParseFirstMember(m, tail);
  }

  /** `JSON.parse(JSON.stringify(v))` is `v`, for every value and every nesting. */
  lemma ParseStringify(v: Json)
    requires WellSpelled(v)
    ensures Parse(Stringify(v)) == Some(v)
  {
    ValueRoundTrip(v, []);
    PrintedStart(v, []);
    assert Stringify(v) + [] == Stringify(v);
  }
}
