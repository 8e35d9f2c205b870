/**
 The stack scanner that refuses JSON text repeating a member name (section 4 of
 RFC 7519, section 4 of RFC 8259): two index loops over the text, proved to refuse
 exactly the texts whose parsed value repeats a name in some object at some depth.
 */
module DuplicateNames {
  import opened Wrappers
  import opened Utf16
  import opened Json

  datatype Kind = InObject | InArray

  /** The scanner's two stacks and its flag. */
  datatype Stacks = Stacks(kinds: seq<Kind>, scopes: seq<set<Text>>, expectingKey: bool)

  const START := Stacks([], [], false)

  datatype Verdict = Clean | Repeats(name: Text) | Unterminated | Undecodable

  datatype Refusal = NotJson | NotAnObject | RepeatedName | BrokenString

  /** Some object at some depth has two members with equal decoded names. */
  ghost predicate Repeating(v: Json) {
    match v
    case Array(items) => exists i :: 0 <= i < |items| && Repeating(items[i])
    case Object(members) =>
      !DistinctKeys(members) || exists i :: 0 <= i < |members| && Repeating(members[i].val)
    case _ => false
  }

  // ---- The scanner as a function ----

  /** How many units precede the closing quote, skipping escape pairs. */
  function RawLength(t: Text): (n: Option<nat>)
    ensures n.Some? ==> n.value < |t| && t[n.value] == QUOTE
  {
    if t == [] then None
    else if t[0] == BACKSLASH then
      if |t| == 1 then None
      else
        var n :- RawLength(t[2..]);
        Some(n + 2)
    else if t[0] == QUOTE then Some(0)
    else
      var n :- RawLength(t[1..]);
      Some(n + 1)
  }

  /** The parse of one quoted literal. */
  function DecodeLiteral(raw: Text): Option<Text> {
    match Parse([QUOTE] + raw + [QUOTE])
    case Some(String(s)) => Some(s)
    case _ => None
  }

  function PopKind(s: Stacks): Stacks {
    if s.kinds == [] then s.(expectingKey := false)
    else
      var rest := s.(kinds := s.kinds[..|s.kinds| - 1], expectingKey := false);
      if s.kinds[|s.kinds| - 1] == InObject && s.scopes != [] then
        rest.(scopes := s.scopes[..|s.scopes| - 1])
      else rest
  }

  predicate InsideObject(s: Stacks) {
    s.kinds != [] && s.kinds[|s.kinds| - 1] == InObject
  }

  function AddName(s: Stacks, name: Text): Stacks {
    if s.scopes == [] then s.(expectingKey := false)
    else
      var top := |s.scopes| - 1;
      s.(scopes := s.scopes[top := s.scopes[top] + {name}], expectingKey := false)
  }

  predicate NameSeen(s: Stacks, name: Text) {
    s.scopes != [] && name in s.scopes[|s.scopes| - 1]
  }

  /** What a unit outside every literal does to the stacks. */
  function AfterUnit(c: CodeUnit, s: Stacks): Stacks {
    if c == OPEN_BRACE then Stacks(s.kinds + [InObject], s.scopes + [{}], true)
    else if c == OPEN_BRACKET then s.(kinds := s.kinds + [InArray], expectingKey := false)
    else if c == CLOSE_BRACE || c == CLOSE_BRACKET then PopKind(s)
    else if c == COMMA then s.(expectingKey := InsideObject(s))
    else s
  }

  /** The scan of the text still ahead. */
  function Scan(t: Text, s: Stacks): Verdict {
    if t == [] then Clean
    else if t[0] != QUOTE then Scan(t[1..], AfterUnit(t[0], s))
    else
      match RawLength(t[1..])
      case None => Unterminated
      case Some(n) =>
        match DecodeLiteral(t[1..][..n])
        case None => Undecodable
        case Some(name) =>
          if !s.expectingKey then Scan(t[1..][n + 1..], s)
          else if NameSeen(s, name) then Repeats(name)
          else Scan(t[1..][n + 1..], AddName(s, name))
  }

  /** One step over a unit outside every literal. */
  lemma ScanUnit(t: Text, s: Stacks)
    requires t != [] && t[0] != QUOTE
    ensures Scan(t, s) == Scan(t[1..], AfterUnit(t[0], s))
  {
  }

  // ---- The scanner as the two loops ----

  function Add(n: Option<nat>, k: nat): Option<nat> {
    if n.None? then None else Some(n.value + k)
  }

  lemma RawStep(text: Text, index: nat)
    requires index < |text|
    ensures RawLength(text[index..]) ==
            if text[index] == QUOTE then Some(0)
            else if text[index] != BACKSLASH then Add(RawLength(text[index + 1..]), 1)
            else if index + 2 <= |text| then Add(RawLength(text[index + 2..]), 2)
            else None
  {
    assert text[index..][1..] == text[index + 1..];
    assert index + 2 <= |text| ==> text[index..][2..] == text[index + 2..];
  }

  method ReadJsonString(text: Text, start: nat) returns (value: Option<Text>, next: nat, terminated: bool)
    requires start < |text|
    ensures terminated == RawLength(text[start + 1..]).Some?
    ensures terminated ==> next == start + 2 + RawLength(text[start + 1..]).value <= |text|
    ensures terminated ==> value == DecodeLiteral(text[start + 1..next - 1])
  {
    hide RawLength, DecodeLiteral;
    var index := start + 1;
    var raw: Text := [];
    ghost var whole := RawLength(text[start + 1..]);
    while index < |text|
      invariant start + 1 <= index
      invariant index <= |text| ==> raw == text[start + 1..index]
      invariant index <= |text| ==> whole == Add(RawLength(text[index..]), index - start - 1)
      invariant index > |text| ==> whole == None
    {
      var character := text[index];
      RawStep(text, index);
      if character == BACKSLASH {
        raw := raw + text[index..if index + 2 <= |text| then index + 2 else |text|];
        index := index + 2;
        continue;
      }
      if character == QUOTE {
        value := DecodeLiteral(raw);
        return value, index + 1, true;
      }
      raw := raw + [character];
      index := index + 1;
    }
    if index == |text| {
      assert text[index..] == [];
      RawOfNothing();
    }
    return None, 0, false;
  }

  lemma RawOfNothing()
    ensures RawLength([]) == None
  {
  }

  ghost function CountObjects(kinds: seq<Kind>): nat {
    if kinds == [] then 0
    else CountObjects(kinds[..|kinds| - 1]) + if kinds[|kinds| - 1] == InObject then 1 else 0
  }

  lemma CountPush(kinds: seq<Kind>, kind: Kind)
    ensures CountObjects(kinds + [kind]) == CountObjects(kinds) + if kind == InObject then 1 else 0
  {
    assert (kinds + [kind])[..|kinds|] == kinds;
  }

  /** A quoted literal seen from the text as a whole. */
  lemma ScanAtQuote(text: Text, index: nat, s: Stacks)
    requires index < |text| && text[index] == QUOTE
    ensures match RawLength(text[index + 1..]) {
              case None => Scan(text[index..], s) == Unterminated
              case Some(n) =>
                var next := index + 2 + n;
                next <= |text|
                && match DecodeLiteral(text[index + 1..next - 1]) {
                  case None => Scan(text[index..], s) == Undecodable
                  case Some(name) =>
                    Scan(text[index..], s) ==
                      if !s.expectingKey then Scan(text[next..], s)
                      else if NameSeen(s, name) then Repeats(name)
                      else Scan(text[next..], AddName(s, name))
                }
            }
  {
    hide RawLength, DecodeLiteral, NameSeen, AddName;
    var t := text[index..];
    assert t[1..] == text[index + 1..];
    if RawLength(t[1..]).Some? {
      var n := RawLength(t[1..]).value;
      assert t[1..][..n] == text[index + 1..index + 1 + n];
      assert t[1..][n + 1..] == text[index + 2 + n..];
    }
  }

  /** Any other unit seen from the text as a whole. */
  lemma ScanAtUnit(text: Text, index: nat, s: Stacks)
    requires index < |text| && text[index] != QUOTE
    ensures Scan(text[index..], s) == Scan(text[index + 1..], AfterUnit(text[index], s))
  {
    hide AfterUnit;
    ScanUnit(text[index..], s);
    assert text[index..][1..] == text[index + 1..];
  }

  method AssertNoDuplicateKeys(text: Text) returns (verdict: Verdict)
    ensures verdict == Scan(text, START)
  {
    hide Scan, RawLength, DecodeLiteral;
    var scopes: seq<set<Text>> := [];
    var kinds: seq<Kind> := [];
    var index := 0;
    var expectingKey := false;
    assert text[0..] == text;
    while index < |text|
      invariant 0 <= index <= |text|
      invariant |scopes| == CountObjects(kinds)
      invariant expectingKey ==> kinds != [] && kinds[|kinds| - 1] == InObject
      invariant Scan(text[index..], Stacks(kinds, scopes, expectingKey)) == Scan(text, START)
    {
      var character := text[index];
      ghost var before := Stacks(kinds, scopes, expectingKey);
      if character == OPEN_BRACE {
        ScanAtUnit(text, index, before);
        CountPush(kinds, InObject);
        scopes := scopes + [{}];
        kinds := kinds + [InObject];
        expectingKey := true;
        index := index + 1;
        continue;
      }
      if character == OPEN_BRACKET {
        ScanAtUnit(text, index, before);
        CountPush(kinds, InArray);
        kinds := kinds + [InArray];
        expectingKey := false;
        index := index + 1;
        continue;
      }
      if character == CLOSE_BRACE || character == CLOSE_BRACKET {
        ScanAtUnit(text, index, before);
        if kinds != [] {
          var popped := kinds[|kinds| - 1];
          kinds := kinds[..|kinds| - 1];
          if popped == InObject {
            scopes := scopes[..|scopes| - 1];
          }
        }
        expectingKey := false;
        index := index + 1;
        continue;
      }
      if character == COMMA {
        ScanAtUnit(text, index, before);
        expectingKey := kinds != [] && kinds[|kinds| - 1] == InObject;
        index := index + 1;
        continue;
      }
      if character == QUOTE {
        ScanAtQuote(text, index, before);
        var value, next, terminated := ReadJsonString(text, index);
        if !terminated {
          return Unterminated;
        }
        if value.None? {
          return Undecodable;
        }
        if expectingKey {
          var top := |scopes| - 1;
          if value.value in scopes[top] {
            return Repeats(value.value);
          }
          scopes := scopes[top := scopes[top] + {value.value}];
          expectingKey := false;
        }
        index := next;
        continue;
      }
      ScanAtUnit(text, index, before);
      index := index + 1;
    }
    ScanEnd(Stacks(kinds, scopes, expectingKey));
    assert text[index..] == [];
    verdict := Clean;
  }

  lemma ScanEnd(s: Stacks)
    ensures Scan([], s) == Clean
  {
  }

  // ---- The scanner follows the grammar ----

  /** A unit the scanner steps over without touching its stacks. */
  predicate Inert(c: CodeUnit) {
    c != OPEN_BRACE && c != CLOSE_BRACE && c != OPEN_BRACKET && c != CLOSE_BRACKET
    && c != COMMA && c != QUOTE
  }

  lemma {:induction false} ScanInert(t: Text, n: nat, s: Stacks)
    requires n <= |t| && forall i :: 0 <= i < n ==> Inert(t[i])
    ensures Scan(t, s) == Scan(t[n..], s)
  {
    if n > 0 {
      ScanInert(t[1..], n - 1, s);
      assert t[1..][n - 1..] == t[n..];
    }
  }

  lemma {:induction false} ScanSpace(t: Text, s: Stacks)
    ensures Scan(t, s) == Scan(SkipSpace(t), s)
  {
    if t != [] && IsSpace(t[0]) {
      ScanSpace(t[1..], s);
    }
  }

  /** One escape or plain unit in front of a literal keeps the scanner and the parser in step. */
  lemma LiteralGrows(head: Text, u: CodeUnit, t: Text, value: Text, rest: Text)
    requires RawLength(t).Some? && rest == t[RawLength(t).value + 1..]
    requires ParseString(t[..RawLength(t).value] + [QUOTE]) == Some((value, []))
    requires RawLength(head + t) == Some(|head| + RawLength(t).value)
    requires forall x: Text :: ParseString(x).Some? ==>
      ParseString(head + x) == Some(([u] + ParseString(x).value.0, ParseString(x).value.1))
    ensures rest == (head + t)[RawLength(head + t).value + 1..]
    ensures ParseString((head + t)[..RawLength(head + t).value] + [QUOTE]) == Some(([u] + value, []))
  {
    hide ParseString, RawLength;
    CutAfter(head, t, RawLength(t).value);
  }

  lemma CutAfter(head: Text, t: Text, n: nat)
    requires n < |t|
    ensures (head + t)[..|head| + n] + [QUOTE] == head + (t[..n] + [QUOTE])
    ensures (head + t)[|head| + n + 1..] == t[n + 1..]
  {
    assert (head + t)[..|head| + n] == head + t[..n];
  }

  lemma HexEscapeParses(head: Text, x: Text)
    requires |head| == 6 && head[0] == BACKSLASH && head[1] == LOWER_U && ParseHex4(head[2..]).Some?
    requires ParseString(x).Some?
    ensures ParseString(head + x) ==
            Some(([ParseHex4(head[2..]).value] + ParseString(x).value.0, ParseString(x).value.1))
  {
    hide ParseHex4;
    HexReadsFour(head[2..], x);
    assert (head + x)[2..] == head[2..] + x && (head + x)[6..] == x;
  }

  lemma HexReadsFour(digits: Text, x: Text)
    requires |digits| == 4
    ensures ParseHex4(digits + x) == ParseHex4(digits)
  {
  }

  lemma ShortEscapeParses(head: Text, x: Text)
    requires |head| == 2 && head[0] == BACKSLASH && head[1] != LOWER_U && ShortEscape(head[1]).Some?
    requires ParseString(x).Some?
    ensures ParseString(head + x) ==
            Some(([ShortEscape(head[1]).value] + ParseString(x).value.0, ParseString(x).value.1))
  {
    hide ShortEscape;
    assert (head + x)[2..] == x;
  }

  /** `RawLength` and `ParseString` stop at the same quote with the same value. */
  ghost predicate EndsTogether(t: Text) {
    ParseString(t).Some? && RawLength(t).Some?
    && ParseString(t).value.1 == t[RawLength(t).value + 1..]
    && ParseString(t[..RawLength(t).value] + [QUOTE]) == Some((ParseString(t).value.0, []))
  }

  /** The scanner and the parser agree on where a literal ends and what it decodes to. */
  lemma {:induction false} LiteralEnds(t: Text)
    requires ParseString(t).Some?
    ensures EndsTogether(t)
    decreases |t|, 1
  {
    if t[0] == QUOTE {
      ClosingQuote([]);
      assert t[..0] + [QUOTE] == [QUOTE] + [];
    } else {
      hide EndsTogether;
      if t[0] != BACKSLASH {
        LiteralEndsPlain(t);
      } else if |t| >= 6 && t[1] == LOWER_U {
        LiteralEndsHex(t);
      } else {
        LiteralEndsShort(t);
      }
    }
  }

  lemma PlainStarts(t: Text)
    requires ParseString(t).Some? && t[0] != QUOTE && t[0] != BACKSLASH
    ensures t[0] >= 0x20 && ParseString(t[1..]).Some?
    ensures ParseString(t) == Some(([t[0]] + ParseString(t[1..]).value.0, ParseString(t[1..]).value.1))
    ensures RawLength(t) == Add(RawLength(t[1..]), 1)
  {
    hide ShortEscape, ParseHex4;
  }

  lemma {:induction false} LiteralEndsPlain(t: Text)
    requires ParseString(t).Some? && t[0] != QUOTE && t[0] != BACKSLASH
    ensures EndsTogether(t)
    decreases |t|, 0
  {
    hide ShortEscape, ParseHex4;
    LiteralEnds(t[1..]);
    var (value, rest) := ParseString(t[1..]).value;
    PlainStarts(t);
    hide ParseString, RawLength;
    forall x: Text | ParseString(x).Some?
      ensures ParseString([t[0]] + x) == Some(([t[0]] + ParseString(x).value.0, ParseString(x).value.1))
    {
      PlainUnit(t[0], x);
    }
    HeadAndTail(t);
    LiteralGrows([t[0]], t[0], t[1..], value, rest);
  }

  lemma {:induction false} LiteralEndsHex(t: Text)
    requires ParseString(t).Some? && t[0] == BACKSLASH && |t| >= 6 && t[1] == LOWER_U
    ensures EndsTogether(t)
    decreases |t|, 0
  {
    var u := ParseHex4(t[2..]).value;
    var (value, rest) := ParseString(t[6..]).value;
    LiteralEnds(t[6..]);
    EscapedHexLength(t);
    var head := t[..6];
    assert head + t[6..] == t && head[2..] + t[6..] == t[2..];
    HexReadsFour(head[2..], t[6..]);
    forall x: Text | ParseString(x).Some?
      ensures ParseString(head + x) == Some(([u] + ParseString(x).value.0, ParseString(x).value.1))
    {
      HexEscapeParses(head, x);
    }
    hide ParseHex4;
    LiteralGrows(head, u, t[6..], value, rest);
  }

  lemma {:induction false} LiteralEndsShort(t: Text)
    requires ParseString(t).Some? && t[0] == BACKSLASH && !(|t| >= 6 && t[1] == LOWER_U)
    ensures EndsTogether(t)
    decreases |t|, 0
  {
    var u := ShortEscape(t[1]).value;
    var (value, rest) := ParseString(t[2..]).value;
    LiteralEnds(t[2..]);
    var head := t[..2];
    assert head + t[2..] == t;
    forall x: Text | ParseString(x).Some?
      ensures ParseString(head + x) == Some(([u] + ParseString(x).value.0, ParseString(x).value.1))
    {
      ShortEscapeParses(head, x);
    }
    LiteralGrows(head, u, t[2..], value, rest);
  }

  lemma EscapedHexLength(t: Text)
    requires |t| >= 6 && t[0] == BACKSLASH && t[1] == LOWER_U && ParseHex4(t[2..]).Some?
    requires RawLength(t[6..]).Some?
    ensures RawLength(t) == Some(RawLength(t[6..]).value + 6)
  {
    assert forall i :: 2 <= i < 6 ==> t[i] == t[2..][i - 2] && t[i] != QUOTE && t[i] != BACKSLASH;
    assert t[2..][1..] == t[3..] && t[3..][1..] == t[4..] && t[4..][1..] == t[5..] && t[5..][1..] == t[6..];
    assert RawLength(t[5..]) == Some(RawLength(t[6..]).value + 1);
    assert RawLength(t[4..]) == Some(RawLength(t[6..]).value + 2);
    assert RawLength(t[3..]) == Some(RawLength(t[6..]).value + 3);
    assert RawLength(t[2..]) == Some(RawLength(t[6..]).value + 4);
  }

  /** What the scanner does at a literal the parser accepts. */
  lemma ScanLiteral(t: Text, s: Stacks)
    requires t != [] && t[0] == QUOTE && ParseString(t[1..]).Some?
    ensures var (name, rest) := ParseString(t[1..]).value;
            Scan(t, s) ==
              if !s.expectingKey then Scan(rest, s)
              else if NameSeen(s, name) then Repeats(name)
              else Scan(rest, AddName(s, name))
  {
    hide ParseString, RawLength, DecodeLiteral, NameSeen, AddName, AfterUnit;
    FrontLiteral(t[1..]);
  }

  /** Where the literal at the front ends and what it decodes to. */
  lemma FrontLiteral(t: Text)
    requires ParseString(t).Some?
    ensures var (name, rest) := ParseString(t).value;
            RawLength(t).Some? && RawLength(t).value < |t|
            && DecodeLiteral(t[..RawLength(t).value]) == Some(name) && t[RawLength(t).value + 1..] == rest
  {
    hide ParseString, RawLength;
    LiteralEnds(t);
    var name, raw := ParseString(t).value.0, t[..RawLength(t).value];
    LiteralDecodes(raw, name);
  }

  lemma LiteralDecodes(raw: Text, name: Text)
    requires ParseString(raw + [QUOTE]) == Some((name, []))
    ensures DecodeLiteral(raw) == Some(name)
  {
    hide ParseString;
    assert [QUOTE] + raw + [QUOTE] == [QUOTE] + (raw + [QUOTE]);
    Uncons(QUOTE, raw + [QUOTE]);
    assert ParseValue([QUOTE] + (raw + [QUOTE])) == Some((String(name), []));
  }

  /** Some name of `members` is in `seen` or earlier, or some value repeats a name. */
  ghost predicate RepeatingAfter(members: seq<Keyed<Json>>, seen: set<Text>) {
    members != []
    && (members[0].key in seen || Repeating(members[0].val)
        || RepeatingAfter(members[1..], seen + {members[0].key}))
  }

  lemma {:induction false} RepeatingAfterMeans(members: seq<Keyed<Json>>, seen: set<Text>)
    ensures RepeatingAfter(members, seen) <==>
            (exists i :: 0 <= i < |members| && (members[i].key in seen || Repeating(members[i].val)))
            || !DistinctKeys(members)
  {
    if members != [] {
      var rest := members[1..];
      RepeatingAfterMeans(rest, seen + {members[0].key});
      if RepeatingAfter(rest, seen + {members[0].key}) {
        if i :| 0 <= i < |rest| && (rest[i].key in seen + {members[0].key} || Repeating(rest[i].val)) {
          assert members[i + 1] == rest[i];
        } else {
          var i, j :| 0 <= i < j < |rest| && rest[i].key == rest[j].key;
          assert members[i + 1].key == members[j + 1].key;
        }
      }
      if i :| 0 <= i < |members| && (members[i].key in seen || Repeating(members[i].val)) {
        if i > 0 {
          assert rest[i - 1] == members[i];
        }
      }
      if !DistinctKeys(members) {
        var i, j :| 0 <= i < j < |members| && members[i].key == members[j].key;
        assert rest[j - 1] == members[j];
        if i > 0 {
          assert rest[i - 1] == members[i];
        }
      }
    }
  }

  /** Over one parsed value the scanner refuses exactly a repeat and restores its stacks. */
  lemma {:induction false} ScanValue(t: Text, s: Stacks)
    requires ParseValue(t).Some? && !s.expectingKey
    ensures var (v, rest) := ParseValue(t).value;
            if Repeating(v) then Scan(t, s).Repeats? else Scan(t, s) == Scan(rest, s)
    decreases |t|, 1
  {
    var (v, rest) := ParseValue(t).value;
    if t[0] == OPEN_BRACE {
      ScanObject(t, s);
    } else if t[0] == OPEN_BRACKET {
      ScanArray(t, s);
    } else if t[0] == QUOTE {
      ScanLiteral(t, s);
    } else if NULL_TEXT <= t || TRUE_TEXT <= t {
      ScanInert(t, 4, s);
    } else if FALSE_TEXT <= t {
      ScanInert(t, 5, s);
    } else {
      NumberUnits(t);
      ScanInert(t, NumberLength(t), s);
    }
  }

  lemma {:induction false} ScanObject(t: Text, s: Stacks)
    requires ParseValue(t).Some? && t[0] == OPEN_BRACE && !s.expectingKey
    ensures var (v, rest) := ParseValue(t).value;
            if Repeating(v) then Scan(t, s).Repeats? else Scan(t, s) == Scan(rest, s)
    decreases |t|, 0
  {
    var (v, rest) := ParseValue(t).value;
    var entered := Stacks(s.kinds + [InObject], s.scopes + [{}], true);
    ScanSpace(t[1..], entered);
    var u := SkipSpace(t[1..]);
    assert Scan(t, s) == Scan(u, entered);
    if u[0] == CLOSE_BRACE {
      assert PopKind(entered) == s;
    } else {
      ScanMembers(u, entered, s, {});
      RepeatingAfterMeans(v.members, {});
    }
  }

  lemma {:induction false} ScanArray(t: Text, s: Stacks)
    requires ParseValue(t).Some? && t[0] == OPEN_BRACKET && !s.expectingKey
    ensures var (v, rest) := ParseValue(t).value;
            if Repeating(v) then Scan(t, s).Repeats? else Scan(t, s) == Scan(rest, s)
    decreases |t|, 0
  {
    var (v, rest) := ParseValue(t).value;
    var entered := s.(kinds := s.kinds + [InArray], expectingKey := false);
    ScanSpace(t[1..], entered);
    var u := SkipSpace(t[1..]);
    assert Scan(t, s) == Scan(u, entered);
    if u[0] == CLOSE_BRACKET {
      assert PopKind(entered) == s;
    } else {
      ScanItems(u, entered, s);
    }
  }

  lemma {:induction false} ScanItems(t: Text, entered: Stacks, s: Stacks)
    requires ParseItems(t).Some? && !s.expectingKey
    requires entered == s.(kinds := s.kinds + [InArray])
    ensures var (items, rest) := ParseItems(t).value;
            if exists i :: 0 <= i < |items| && Repeating(items[i]) then Scan(t, entered).Repeats?
            else Scan(t, entered) == Scan(rest, s)
    decreases |t|, 2
  {
    hide Scan, ParseValue, SkipSpace;
    var (items, rest) := ParseItems(t).value;
    var (head, afterHead) := ParseValue(t).value;
    ScanValue(t, entered);
    assert items[0] == head;
    if !Repeating(head) {
      ScanSpace(afterHead, entered);
      var u := SkipSpace(afterHead);
      ScanUnit(u, entered);
      if u[0] == CLOSE_BRACKET {
        assert PopKind(entered) == s;
      } else {
        var ahead := SkipSpace(u[1..]);
        assert AfterUnit(COMMA, entered) == entered;
        ScanSpace(u[1..], entered);
        ScanItems(ahead, entered, s);
        var tail := ParseItems(ahead).value.0;
        assert items == [head] + tail;
        assert forall i :: 0 <= i < |tail| ==> items[i + 1] == tail[i];
        assert forall i :: 1 <= i < |items| ==> items[i] == tail[i - 1];
      }
    }
  }

  /** `seen` is the open object's scope; it grows as the members go by. */
  lemma {:induction false} ScanMembers(t: Text, entered: Stacks, s: Stacks, seen: set<Text>)
    requires ParseMembers(t).Some? && !s.expectingKey
    requires entered == Stacks(s.kinds + [InObject], s.scopes + [seen], true)
    ensures var (members, rest) := ParseMembers(t).value;
            if RepeatingAfter(members, seen) then Scan(t, entered).Repeats?
            else Scan(t, entered) == Scan(rest, s)
    decreases |t|, 2
  {
    hide Scan, ParseValue, SkipSpace, ParseString, Repeating;
    var (members, rest) := ParseMembers(t).value;
    var (name, afterName) := ParseString(t[1..]).value;
    ScanLiteral(t, entered);
    if name !in seen {
      var named := Stacks(s.kinds + [InObject], s.scopes + [seen + {name}], false);
      assert AddName(entered, name) == named;
      ScanSpace(afterName, named);
      var colon := SkipSpace(afterName);
      ScanUnit(colon, named);
      ScanSpace(colon[1..], named);
      var valueText := SkipSpace(colon[1..]);
      ScanValue(valueText, named);
      var (value, afterValue) := ParseValue(valueText).value;
      assert members[0] == Keyed(name, value);
      if !Repeating(value) {
        ScanAfterMember(afterValue, named, s, seen, name);
        var u := SkipSpace(afterValue);
        if u[0] != CLOSE_BRACE {
          var next := Stacks(s.kinds + [InObject], s.scopes + [seen + {name}], true);
          ScanMembers(SkipSpace(u[1..]), next, s, seen + {name});
          assert members[1..] == ParseMembers(SkipSpace(u[1..])).value.0;
        } else {
          assert members == [members[0]];
          assert !RepeatingAfter(members[1..], seen + {name});
        }
      }
    }
  }

  /** After a member: a closing brace restores the stacks, a comma asks for the next name. */
  lemma ScanAfterMember(t: Text, named: Stacks, s: Stacks, seen: set<Text>, name: Text)
    requires !s.expectingKey
    requires named == Stacks(s.kinds + [InObject], s.scopes + [seen + {name}], false)
    requires SkipSpace(t) != []
    ensures var u := SkipSpace(t);
            (u[0] == CLOSE_BRACE ==> Scan(t, named) == Scan(u[1..], s))
            && (u[0] == COMMA ==> Scan(t, named) == Scan(SkipSpace(u[1..]), named.(expectingKey := true)))
  {
    hide Scan, SkipSpace;
    ScanSpace(t, named);
    var u := SkipSpace(t);
    if u[0] == CLOSE_BRACE {
      ScanUnit(u, named);
      assert PopKind(named) == s;
    } else if u[0] == COMMA {
      ScanUnit(u, named);
      ScanSpace(u[1..], named.(expectingKey := true));
    }
  }

  /** On every JSON text the scanner refuses exactly when a name repeats, and never for another reason. */
  lemma ScanDecides(text: Text)
    requires Parse(text).Some?
    ensures if Repeating(Parse(text).value) then Scan(text, START).Repeats? else Scan(text, START) == Clean
  {
    ScanSpace(text, START);
    var t := SkipSpace(text);
    ScanValue(t, START);
    ScanSpace(ParseValue(t).value.1, START);
  }

  /**
   `parseDuplicateKeyFreeJsonObject`: the value of every text that is one JSON object
   repeating no name, a refusal of every other text.
   */
  method ParseDuplicateKeyFreeJsonObject(text: Text) returns (r: Result<Json, Refusal>)
    ensures forall v :: r == Ok(v) <==> Parse(text) == Some(v) && v.Object? && !Repeating(v)
    ensures r == Err(RepeatedName) <==>
            Parse(text).Some? && Parse(text).value.Object? && Repeating(Parse(text).value)
  {
    var parsed := Parse(text);
    if parsed.None? {
      return Err(NotJson);
    }
    if !parsed.value.Object? {
      return Err(NotAnObject);
    }
    var verdict := AssertNoDuplicateKeys(text);
    ScanDecides(text);
    match verdict {
      case Clean => r := Ok(parsed.value);
      case Repeats(_) => r := Err(RepeatedName);
      case _ => r := Err(BrokenString);
    }
  }
}
