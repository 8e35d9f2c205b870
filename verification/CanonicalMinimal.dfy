/**
 The canonical text is the shortest: no well-formed JSON text of the same value has fewer
 code units. With it the spelling of every unit of a string, apart from the printer.
 */
module CanonicalMinimal {
  import opened Wrappers
  import opened Utf16
  import opened Json
  import opened CanonicalJson
  import opened Utf8

  // ---- The escape tables ----

  /** The two-unit escapes of RFC 8259, section 7: the unit after the backslash and what it stands for. */
  const SHORT_ESCAPES: map<CodeUnit, CodeUnit> := map[
    0x22 := 0x22, 0x5C := 0x5C, 0x2F := 0x2F, 0x62 := 0x08, 0x66 := 0x0C, 0x6E := 0x0A, 0x72 := 0x0D, 0x74 := 0x09]

  /** `0123456789abcdef` and `0123456789ABCDEF` */
  const LOWER_HEX: Text := [0x30, 0x31, 0x32, 0x33, 0x34, 0x35, 0x36, 0x37, 0x38, 0x39, 0x61, 0x62, 0x63, 0x64, 0x65, 0x66]
  const UPPER_HEX: Text := [0x30, 0x31, 0x32, 0x33, 0x34, 0x35, 0x36, 0x37, 0x38, 0x39, 0x41, 0x42, 0x43, 0x44, 0x45, 0x46]

  /** The parser's short escapes are the table's. */
  lemma ShortEscapesRead(c: CodeUnit)
    ensures ShortEscape(c) == if c in SHORT_ESCAPES then Some(SHORT_ESCAPES[c]) else None
  {
  }

  /** A hexadecimal digit reads as its place in either alphabet. */
  lemma HexDigitsRead(c: CodeUnit, v: nat)
    ensures HexValue(c) == Some(v) <==> v < 16 && (c == LOWER_HEX[v] || c == UPPER_HEX[v])
  {
  }

  lemma HexDigitsPrint(v: nat)
    requires v < 16
    ensures HexDigit(v) == LOWER_HEX[v]
  {
  }

  /**
   How each unit of a string is printed: by its short escape when it has one other than the
   slash's, by `\u` and four lower-case digits when it is another control or a surrogate, and
   as itself otherwise.
   */
  lemma EscapesPrinted(u: CodeUnit)
    ensures forall c :: c in SHORT_ESCAPES && c != SLASH && SHORT_ESCAPES[c] == u ==> EscapeUnit(u) == [BACKSLASH, c]
    ensures (forall c :: c in SHORT_ESCAPES && c != SLASH ==> SHORT_ESCAPES[c] != u) ==>
              if u < 0x20 || 0xD800 <= u <= 0xDFFF then
                |EscapeUnit(u)| == 6 && EscapeUnit(u)[..2] == [BACKSLASH, LOWER_U]
                && (forall i :: 2 <= i < 6 ==> EscapeUnit(u)[i] in LOWER_HEX) && ParseHex4(EscapeUnit(u)[2..]) == Some(u)
              else EscapeUnit(u) == [u]
  {
    var s := SHORT_ESCAPES;
    assert s[0x22] == 0x22 && s[0x5C] == 0x5C && s[0x62] == 0x08 && s[0x66] == 0x0C && s[0x6E] == 0x0A && s[0x72] == 0x0D && s[0x74] == 0x09;
    if (forall c :: c in s && c != SLASH ==> s[c] != u) && (u < 0x20 || 0xD800 <= u <= 0xDFFF) {
      SixUnits(u);
    }
  }

  lemma SixUnits(u: CodeUnit)
    ensures var t := [BACKSLASH, LOWER_U] + Hex4(u);
            |t| == 6 && t[..2] == [BACKSLASH, LOWER_U] && (forall i :: 2 <= i < 6 ==> t[i] in LOWER_HEX)
            && ParseHex4(t[2..]) == Some(u)
  {
    hide LOWER_HEX, HexDigit, ParseHex4;
    var t := [BACKSLASH, LOWER_U] + Hex4(u);
    HexPlaces(u);
    HexIn(u / 0x1000);
    HexIn(u / 0x100 % 16);
    HexIn(u / 16 % 16);
    HexIn(u % 16);
    HexRoundTrip(u, []);
    assert Hex4(u) + [] == Hex4(u) && t[2..] == Hex4(u);
  }

  lemma HexIn(v: nat)
    requires v < 16
    ensures HexDigit(v) in LOWER_HEX
  {
    HexDigitsPrint(v);
    assert LOWER_HEX[v] in LOWER_HEX;
  }

  // ---- Well-formed texts read from the front ----

  predicate NoSurrogate(u: CodeUnit) {
    !IsHighSurrogate(u) && !IsLowSurrogate(u)
  }

  lemma {:induction false} Past(t: Text, n: nat)
    requires WellFormedText(t) && n <= |t| && forall i :: 0 <= i < n ==> NoSurrogate(t[i])
    ensures WellFormedText(t[n..])
  {
    if n > 0 {
      assert NoSurrogate(t[0]);
      Past(t[1..], n - 1);
      assert t[1..][n - 1..] == t[n..];
    }
  }

  lemma {:induction false} PastSpace(t: Text)
    requires WellFormedText(t)
    ensures WellFormedText(SkipSpace(t))
  {
    if t != [] && IsSpace(t[0]) {
      PastSpace(t[1..]);
    }
  }

  lemma PastNumber(t: Text)
    requires WellFormedText(t)
    ensures WellFormedText(t[NumberLength(t)..])
  {
    hide NumberLength;
    NumberUnits(t);
    Past(t, NumberLength(t));
  }

  // ---- Strings ----

  /** One more unit in front costs at most its own spelling. */
  lemma EscapeOneMore(u: CodeUnit, s: Text)
    ensures |Escape([u] + s)| <= |EscapeUnit(u)| + |Escape(s)|
    ensures |EscapeUnit(u)| <= 6
  {
    hide EscapeUnit;
    Uncons(u, s);
    EscapeUnitLength(u);
    if s != [] && IsHighSurrogate(u) && IsLowSurrogate(s[0]) {
      EscapeUnitLength(s[0]);
      assert ([u] + s)[2..] == s[1..];
      LowIsNotHigh(s[0]);
    }
  }

  lemma LowIsNotHigh(u: CodeUnit)
    ensures IsLowSurrogate(u) ==> !IsHighSurrogate(u) && u != QUOTE && u != BACKSLASH && u >= 0x20
    ensures IsHighSurrogate(u) ==> u != QUOTE && u != BACKSLASH && u >= 0x20
  {
  }

  lemma EscapeUnitLength(u: CodeUnit)
    ensures 1 <= |EscapeUnit(u)| <= 6
    ensures NoSurrogate(u) && u >= 0x20 && u != QUOTE && u != BACKSLASH ==> |EscapeUnit(u)| == 1
  {
  }

  lemma ShortEscapeLength(c: CodeUnit)
    requires ShortEscape(c).Some?
    ensures |EscapeUnit(ShortEscape(c).value)| <= 2
  {
  }

  /** A literal is at least as long as its contents printed. */
  lemma {:induction false} StringNoShorter(t: Text)
    requires WellFormedText(t) && ParseString(t).Some?
    ensures var (s, rest) := ParseString(t).value;
            |t| - |rest| >= |Escape(s)| + 1 && WellFormedText(rest)
    decreases |t|
  {
    hide Escape, EscapeUnit, ParseHex4, ShortEscape;
    if t[0] == QUOTE {
      Past(t, 1);
      NothingEscaped();
    } else if t[0] == BACKSLASH && |t| >= 6 && t[1] == LOWER_U {
      HexUnits(t[2..]);
      Past(t, 6);
      StringNoShorter(t[6..]);
      EscapeOneMore(ParseHex4(t[2..]).value, ParseString(t[6..]).value.0);
    } else if t[0] == BACKSLASH {
      ShortEscapeUnit(t[1]);
      Past(t, 2);
      StringNoShorter(t[2..]);
      ShortEscapeLength(t[1]);
      EscapeOneMore(ShortEscape(t[1]).value, ParseString(t[2..]).value.0);
    } else if NoSurrogate(t[0]) {
      Past(t, 1);
      StringNoShorter(t[1..]);
      EscapeUnitLength(t[0]);
      EscapeOneMore(t[0], ParseString(t[1..]).value.0);
    } else {
      RawPair(t);
      StringNoShorter(t[2..]);
      PairEscaped(t[0], t[1], ParseString(t[2..]).value.0);
    }
  }

  lemma NothingEscaped()
    ensures Escape([]) == []
  {
  }

  lemma HexUnits(t: Text)
    requires |t| >= 4 && ParseHex4(t).Some?
    ensures forall i :: 0 <= i < 4 ==> NoSurrogate(t[i])
  {
  }

  lemma ShortEscapeUnit(c: CodeUnit)
    requires ShortEscape(c).Some?
    ensures NoSurrogate(c)
  {
  }

  /** A surrogate unit of a well-formed literal stands in a pair. */
  lemma RawPair(t: Text)
    requires WellFormedText(t) && ParseString(t).Some? && t[0] != QUOTE && t[0] != BACKSLASH && !NoSurrogate(t[0])
    ensures |t| >= 2 && IsHighSurrogate(t[0]) && IsLowSurrogate(t[1]) && WellFormedText(t[2..])
    ensures ParseString(t[2..]).Some?
    ensures ParseString(t) == Some(([t[0], t[1]] + ParseString(t[2..]).value.0, ParseString(t[2..]).value.1))
  {
    hide ParseString, IsHighSurrogate, IsLowSurrogate;
    LowIsNotHigh(t[0]);
    LowIsNotHigh(t[1]);
    RawUnit(t);
    assert t[1..][1..] == t[2..] && t[1..][0] == t[1];
    RawUnit(t[1..]);
    Paired(t[0], t[1], ParseString(t[2..]).value.0);
  }

  lemma Paired(a: CodeUnit, b: CodeUnit, s: Text)
    ensures [a] + ([b] + s) == [a, b] + s
  {
  }

  /** A unit that spells itself. */
  lemma RawUnit(t: Text)
    requires ParseString(t).Some? && t[0] != QUOTE && t[0] != BACKSLASH
    ensures ParseString(t[1..]).Some?
    ensures ParseString(t) == Some(([t[0]] + ParseString(t[1..]).value.0, ParseString(t[1..]).value.1))
  {
    hide ParseHex4, ShortEscape;
  }

  lemma PairEscaped(high: CodeUnit, low: CodeUnit, s: Text)
    requires IsHighSurrogate(high) && IsLowSurrogate(low)
    ensures |Escape([high, low] + s)| == 2 + |Escape(s)|
  {
    var t := [high, low] + s;
    assert t[2..] == s;
  }

  // ---- Values ----

  /** Reading a value takes at least as many units as printing it writes. */
  lemma {:induction false} ValueNoShorter(t: Text)
    requires WellFormedText(t) && ParseValue(t).Some?
    ensures var (v, rest) := ParseValue(t).value;
            |t| - |rest| >= |Stringify(v)| && WellFormedText(rest)
    decreases |t|, 1
  {
    hide ParseString, Escape, NumberLength, SkipSpace, ParseItems, ParseMembers;
    if t[0] == OPEN_BRACE || t[0] == OPEN_BRACKET {
      Past(t, 1);
      PastSpace(t[1..]);
      var u := SkipSpace(t[1..]);
      if u != [] && u[0] == (if t[0] == OPEN_BRACE then CLOSE_BRACE else CLOSE_BRACKET) {
        Past(u, 1);
      } else if t[0] == OPEN_BRACE {
        MembersNoShorter(u);
      } else {
        ItemsNoShorter(u);
      }
    } else if t[0] == QUOTE {
      Past(t, 1);
      StringNoShorter(t[1..]);
    } else if NULL_TEXT <= t || TRUE_TEXT <= t || FALSE_TEXT <= t {
      LiteralNoShorter(t);
    } else {
      PastNumber(t);
    }
  }

  lemma LiteralNoShorter(t: Text)
    requires WellFormedText(t) && (NULL_TEXT <= t || TRUE_TEXT <= t || FALSE_TEXT <= t)
    ensures NULL_TEXT <= t || TRUE_TEXT <= t ==> WellFormedText(t[4..])
    ensures FALSE_TEXT <= t ==> WellFormedText(t[5..])
  {
    if FALSE_TEXT <= t {
      assert t[0] == FALSE_TEXT[0] && t[1] == FALSE_TEXT[1] && t[2] == FALSE_TEXT[2] && t[3] == FALSE_TEXT[3] && t[4] == FALSE_TEXT[4];
      Past(t, 5);
    } else {
      var w := if NULL_TEXT <= t then NULL_TEXT else TRUE_TEXT;
      assert t[0] == w[0] && t[1] == w[1] && t[2] == w[2] && t[3] == w[3];
      Past(t, 4);
    }
  }

  lemma {:induction false} ItemsNoShorter(t: Text)
    requires WellFormedText(t) && ParseItems(t).Some?
    ensures var (items, rest) := ParseItems(t).value;
            items != [] && |t| - |rest| >= |StringifyItems(items)| + 1 && WellFormedText(rest)
    decreases |t|, 2
  {
    hide ParseValue, SkipSpace, Stringify;
    ValueNoShorter(t);
    var (head, after) := ParseValue(t).value;
    PastSpace(after);
    var u := SkipSpace(after);
    Past(u, 1);
    if u[0] == COMMA {
      PastSpace(u[1..]);
      ItemsNoShorter(SkipSpace(u[1..]));
      Uncons(head, ParseItems(SkipSpace(u[1..])).value.0);
    }
  }

  lemma {:induction false} MembersNoShorter(t: Text)
    requires WellFormedText(t) && ParseMembers(t).Some?
    ensures var (members, rest) := ParseMembers(t).value;
            members != [] && |t| - |rest| >= |StringifyMembers(members)| + 1 && WellFormedText(rest)
    decreases |t|, 2
  {
    hide ParseValue, ParseString, SkipSpace, Stringify, Escape;
    Past(t, 1);
    StringNoShorter(t[1..]);
    var (name, afterString) := ParseString(t[1..]).value;
    PastSpace(afterString);
    var afterName := SkipSpace(afterString);
    Past(afterName, 1);
    PastSpace(afterName[1..]);
    ValueNoShorter(SkipSpace(afterName[1..]));
    var (value, after) := ParseValue(SkipSpace(afterName[1..])).value;
    PastSpace(after);
    var u := SkipSpace(after);
    Past(u, 1);
    if u[0] == COMMA {
      PastSpace(u[1..]);
      MembersNoShorter(SkipSpace(u[1..]));
      Uncons(Keyed(name, value), ParseMembers(SkipSpace(u[1..])).value.0);
    }
  }

  /**
   The canonical text is a well-formed text of its value, and no well-formed text of that
   value is shorter.
   */
  lemma CanonicalIsShortest(v: JsValue, t: Text)
    requires WellFormed(v) && Canonicalize(v).Some?
    requires WellFormedText(t) && Parse(t) == Canonical(v)
    ensures |t| >= |Canonicalize(v).value|
    ensures WellFormedText(Canonicalize(v).value) && Parse(Canonicalize(v).value) == Canonical(v)
  {
    hide ParseValue, SkipSpace, Stringify, Canonicalize, Canonical;
    CanonicalizePrints(v);
    CanonicalWellSpelled(v);
    StringifyWellFormed(Canonical(v).value);
    ParseStringify(Canonical(v).value);
    PastSpace(t);
    ValueNoShorter(SkipSpace(t));
  }
}
