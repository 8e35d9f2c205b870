/**
 Scrubbing credentials out of texts, and refusing evidence that still carries one.
 */
module Redaction {
  import opened Wrappers
  import opened Utf16
  import opened Json

  /** `[REDACTED]` */
  const REDACTION_PLACEHOLDER: Text := [0x5B, 0x52, 0x45, 0x44, 0x41, 0x43, 0x54, 0x45, 0x44, 0x5D]

  /** `REDACTED` */
  const REDACTED: Text := [0x52, 0x45, 0x44, 0x41, 0x43, 0x54, 0x45, 0x44]

  const OPEN: CodeUnit := 0x5B
  const CLOSE: CodeUnit := 0x5D

  predicate OccursAt(t: Text, s: Text, i: nat) {
    i + |s| <= |t| && t[i..i + |s|] == s
  }

  /** `t.includes(s)`. */
  predicate Contains(t: Text, s: Text) {
    exists i :: 0 <= i <= |t| && OccursAt(t, s, i)
  }

  // ---- `split` and `join` on a text separator ----

  /** `t.split(s)` for a separator that is not empty: cut at the leftmost occurrence, again and again. */
  function SplitText(t: Text, s: Text): (parts: seq<Text>)
    requires s != []
    ensures parts != []
  {
    if |t| < |s| then [t]
    else if t[..|s|] == s then [[]] + SplitText(t[|s|..], s)
    else
      var rest := SplitText(t[1..], s);
      [[t[0]] + rest[0]] + rest[1..]
  }

  function JoinText(parts: seq<Text>, glue: Text): Text
    requires parts != []
  {
    if |parts| == 1 then parts[0] else parts[0] + glue + JoinText(parts[1..], glue)
  }

  /** Splitting and joining with the separator again gives the text back. */
  lemma {:induction false} JoinSplitText(t: Text, s: Text)
    requires s != []
    ensures JoinText(SplitText(t, s), s) == t
  {
    if |t| < |s| {
    } else if t[..|s|] == s {
      JoinSplitText(t[|s|..], s);
      Uncons<Text>([], SplitText(t[|s|..], s));
      assert [] + s + t[|s|..] == t;
    } else {
      var rest := SplitText(t[1..], s);
      JoinSplitText(t[1..], s);
      Uncons([t[0]] + rest[0], rest[1..]);
      if |rest| == 1 {
        assert [t[0]] + rest[0] == t;
      } else {
        var tail := JoinText(rest[1..], s);
        assert [t[0]] + rest[0] + s + tail == [t[0]] + (rest[0] + s + tail);
      }
    }
  }

  lemma SliceTwice(t: Text, from: nat, to: nat, i: nat, j: nat)
    requires from <= to <= |t| && i <= j <= to - from
    ensures t[from..to][i..j] == t[from + i..from + j]
  {
    var a, b := t[from..to][i..j], t[from + i..from + j];
    assert |a| == |b| && forall k :: 0 <= k < |a| ==> a[k] == b[k];
  }

  lemma ContainsWithin(t: Text, from: nat, n: nat, q: Text)
    requires from + n <= |t| && Contains(t[from..from + n], q)
    ensures Contains(t, q)
  {
    var i :| 0 <= i <= n && OccursAt(t[from..from + n], q, i);
    SliceTwice(t, from, from + n, i, i + |q|);
    assert t[from + i..from + i + |q|] == q;
    assert OccursAt(t, q, from + i);
  }

  lemma {:induction false} FirstPart(t: Text, s: Text)
    requires s != []
    ensures SplitText(t, s)[0] <= t
  {
    if |t| >= |s| && t[..|s|] != s {
      FirstPart(t[1..], s);
      assert t == [t[0]] + t[1..];
    }
  }

  /** No part holds the separator, and a part holds nothing the text does not. */
  lemma {:induction false} PartsFree(t: Text, s: Text, q: Text)
    requires s != []
    ensures forall k :: 0 <= k < |SplitText(t, s)| ==> !Contains(SplitText(t, s)[k], s)
    ensures !Contains(t, q) ==> forall k :: 0 <= k < |SplitText(t, s)| ==> !Contains(SplitText(t, s)[k], q)
  {
    hide Contains;
    var parts := SplitText(t, s);
    if |t| < |s| {
      ShortIsFree(t, s);
    } else if t[..|s|] == s {
      var rest := t[|s|..];
      PartsFree(rest, s, q);
      ShortIsFree([], s);
      if !Contains(t, q) {
        TailFree(t, |s|, q);
        EmptyFree(t, q);
      }
      forall k | 0 <= k < |parts| ensures !Contains(parts[k], s) && (!Contains(t, q) ==> !Contains(parts[k], q)) {
        if k > 0 {
          assert parts[k] == SplitText(rest, s)[k - 1];
        }
      }
    } else {
      var rest := t[1..];
      var tail := SplitText(rest, s);
      PartsFree(rest, s, q);
      FirstPart(t, s);
      FirstFree(t, tail[0], s);
      if !Contains(t, q) {
        TailFree(t, 1, q);
        PrefixFree(t, parts[0], q);
      }
      forall k | 0 <= k < |parts| ensures !Contains(parts[k], s) && (!Contains(t, q) ==> !Contains(parts[k], q)) {
        if k > 0 {
          assert parts[k] == tail[k];
        }
      }
    }
  }

  lemma ShortIsFree(t: Text, s: Text)
    requires |t| < |s|
    ensures !Contains(t, s)
  {
  }

  lemma EmptyFree(t: Text, q: Text)
    requires !Contains(t, q)
    ensures !Contains([], q)
  {
    if q == [] {
      assert OccursAt(t, q, 0);
    }
  }

  lemma TailFree(t: Text, from: nat, q: Text)
    requires from <= |t| && !Contains(t, q)
    ensures !Contains(t[from..], q)
  {
    if Contains(t[from..], q) {
      assert t[from..] == t[from..from + (|t| - from)];
      ContainsWithin(t, from, |t| - from, q);
    }
  }

  lemma PrefixFree(t: Text, p: Text, q: Text)
    requires p <= t && !Contains(t, q)
    ensures !Contains(p, q)
  {
    if Contains(p, q) {
      assert p == t[0..0 + |p|];
      ContainsWithin(t, 0, |p|, q);
    }
  }

  lemma FirstFree(t: Text, tail: Text, s: Text)
    requires |t| >= |s| > 0 && [t[0]] + tail <= t
    ensures Contains([t[0]] + tail, s) ==> t[..|s|] == s || Contains(tail, s)
  {
    var p := [t[0]] + tail;
    if Contains(p, s) {
      var i :| 0 <= i <= |p| && OccursAt(p, s, i);
      if i == 0 {
        assert t[..|s|] == p[..|s|];
      } else {
        assert tail[i - 1..i - 1 + |s|] == p[i..i + |s|];
        assert OccursAt(tail, s, i - 1);
      }
    }
  }

  // ---- Secrets ----

  /** A secret the placeholder can neither hold nor be glued into. */
  predicate Scrubbable(s: Text) {
    s != [] && OPEN !in s && CLOSE !in s && !Contains(REDACTED, s)
  }

  lemma PlaceholderIs()
    ensures REDACTION_PLACEHOLDER == [OPEN] + REDACTED + [CLOSE]
  {
  }

  /** Joining with the placeholder makes no occurrence of a scrubbable secret. */
  lemma {:induction false} JoinedFree(parts: seq<Text>, q: Text)
    requires parts != [] && Scrubbable(q) && forall k :: 0 <= k < |parts| ==> !Contains(parts[k], q)
    ensures !Contains(JoinText(parts, REDACTION_PLACEHOLDER), q)
  {
    hide Contains, OccursAt;
    if |parts| > 1 {
      JoinedFree(parts[1..], q);
      GluedFree(parts[0], JoinText(parts[1..], REDACTION_PLACEHOLDER), q);
    }
  }

  lemma GluedFree(a: Text, b: Text, q: Text)
    requires q != [] && OPEN !in q && CLOSE !in q
    ensures Contains(a + REDACTION_PLACEHOLDER + b, q) ==> Contains(a, q) || Contains(REDACTED, q) || Contains(b, q)
  {
    var t := a + REDACTION_PLACEHOLDER + b;
    if Contains(t, q) {
      var i :| 0 <= i <= |t| && OccursAt(t, q, i);
      WindowIsInside(a, b, q, i);
    }
  }

  /** A window without brackets lies on one side of each bracket. */
  lemma WindowIsInside(a: Text, b: Text, q: Text, i: nat)
    requires q != [] && OPEN !in q && CLOSE !in q && OccursAt(a + REDACTION_PLACEHOLDER + b, q, i)
    ensures Contains(a, q) || Contains(REDACTED, q) || Contains(b, q)
  {
    var t := a + REDACTION_PLACEHOLDER + b;
    var n := |a|;
    forall j | i <= j < i + |q| ensures t[j] != OPEN && t[j] != CLOSE {
      assert t[i..i + |q|][j - i] == t[j];
      assert q[j - i] in q;
    }
    assert t[n] == OPEN && t[n + 9] == CLOSE;
    if i + |q| <= n {
      assert a[i..i + |q|] == q;
      assert OccursAt(a, q, i);
    } else if i > n + 9 {
      assert b[i - n - 10..i - n - 10 + |q|] == q;
      assert OccursAt(b, q, i - n - 10);
    } else {
      assert REDACTED[i - n - 1..i - n - 1 + |q|] == q;
      assert OccursAt(REDACTED, q, i - n - 1);
    }
  }

  // ---- Scrubbing ----

  /** An absent or empty secret is skipped. */
  function ScrubOne(text: Text, secret: Option<Text>): Text {
    if secret.None? || secret.value == [] then text
    else JoinText(SplitText(text, secret.value), REDACTION_PLACEHOLDER)
  }

  function Scrub(text: Text, secrets: seq<Option<Text>>): Text {
    if secrets == [] then text
    else ScrubOne(Scrub(text, secrets[..|secrets| - 1]), secrets[|secrets| - 1])
  }

  method ScrubSecrets(text: Text, secrets: seq<Option<Text>>) returns (scrubbed: Text)
    ensures scrubbed == Scrub(text, secrets)
  {
    hide JoinText, SplitText;
    scrubbed := text;
    var i := 0;
    while i < |secrets|
      invariant 0 <= i <= |secrets| && scrubbed == Scrub(text, secrets[..i])
    {
      assert secrets[..i + 1][..i] == secrets[..i];
      if secrets[i].Some? && secrets[i].value != [] {
        scrubbed := JoinText(SplitText(scrubbed, secrets[i].value), REDACTION_PLACEHOLDER);
      }
      i := i + 1;
    }
    assert secrets[..i] == secrets;
  }

  /** One scrub removes its own secret and brings back none. */
  lemma ScrubOneFrees(text: Text, secret: Option<Text>, q: Text)
    requires Scrubbable(q) && (secret == Some(q) || !Contains(text, q))
    ensures !Contains(ScrubOne(text, secret), q)
  {
    hide Contains, JoinText, SplitText, Scrubbable;
    ScrubbableNotEmpty(q);
    if secret.Some? && secret.value != [] {
      PartsFree(text, secret.value, q);
      JoinedFree(SplitText(text, secret.value), q);
    }
  }

  lemma ScrubbableNotEmpty(q: Text)
    requires Scrubbable(q)
    ensures q != []
  {
  }

  /** Whatever the order and overlap of the secrets, none of the scrubbable ones is left. */
  lemma {:induction false} NoSecretRemains(text: Text, secrets: seq<Option<Text>>, q: Text)
    requires Scrubbable(q) && Some(q) in secrets
    ensures !Contains(Scrub(text, secrets), q)
  {
    hide Contains, ScrubOne, Scrubbable;
    var n := |secrets| - 1;
    if secrets[n] != Some(q) {
      assert secrets == secrets[..n] + [secrets[n]];
      NoSecretRemains(text, secrets[..n], q);
    }
    ScrubOneFrees(Scrub(text, secrets[..n]), secrets[n], q);
  }

  /** Scrubbing a text of this one secret always removes it. */
  ghost predicate AlwaysScrubbed(s: Text) {
    forall text: Text :: !Contains(Scrub(text, [Some(s)]), s)
  }

  /** Among secrets without brackets the guarantee holds of exactly those not inside `REDACTED`. */
  lemma BracketFreeExactly(s: Text)
    requires s != [] && OPEN !in s && CLOSE !in s
    ensures AlwaysScrubbed(s) <==> !Contains(REDACTED, s)
  {
    hide Contains, SplitText, Scrub;
    if !Contains(REDACTED, s) {
      forall text ensures !Contains(Scrub(text, [Some(s)]), s) {
        NoSecretRemains(text, [Some(s)], s);
      }
    } else {
      SelfLeak(s);
    }
  }

  lemma SelfLeak(s: Text)
    requires s != [] && Contains(REDACTED, s)
    ensures Contains(Scrub(s, [Some(s)]), s)
  {
    assert [Some(s)][..0] == [];
    assert Scrub(s, []) == s;
    var one: seq<Text> := [[]];
    var two: seq<Text> := [[], []];
    assert s[|s|..] == [] && SplitText([], s) == one;
    assert SplitText(s, s) == two && two[1..] == one;
    assert JoinText(one, REDACTION_PLACEHOLDER) == [];
    assert JoinText(two, REDACTION_PLACEHOLDER) == REDACTION_PLACEHOLDER;
    var i :| 0 <= i <= |REDACTED| && OccursAt(REDACTED, s, i);
    PlaceholderIs();
    assert REDACTION_PLACEHOLDER[i + 1..i + 1 + |s|] == REDACTED[i..i + |s|];
    assert OccursAt(REDACTION_PLACEHOLDER, s, i + 1);
  }

  // ---- Evidence ----

  /** Every string of a value, member names included, in walking order. */
  function Strings(v: Json): seq<Text> {
    match v
    case String(t) => [t]
    case Array(items) => ItemStrings(items)
    case Object(members) => MemberStrings(members)
    case _ => []
  }

  function ItemStrings(items: seq<Json>): seq<Text> {
    if items == [] then [] else Strings(items[0]) + ItemStrings(items[1..])
  }

  function MemberStrings(members: seq<Keyed<Json>>): seq<Text> {
    if members == [] then [] else [members[0].key] + Strings(members[0].val) + MemberStrings(members[1..])
  }

  /** `t` is a string value or a member name somewhere inside. */
  ghost predicate Occurs(v: Json, t: Text) {
    match v
    case String(s) => s == t
    case Array(items) => exists i :: 0 <= i < |items| && Occurs(items[i], t)
    case Object(members) => exists i :: 0 <= i < |members| && (members[i].key == t || Occurs(members[i].val, t))
    case _ => false
  }

  lemma {:induction false} StringsOccur(v: Json, t: Text)
    ensures t in Strings(v) <==> Occurs(v, t)
  {
    match v
    case Array(items) => ItemStringsOccur(items, t);
    case Object(members) => MemberStringsOccur(members, t);
    case _ =>
  }

  lemma {:induction false} ItemStringsOccur(items: seq<Json>, t: Text)
    ensures t in ItemStrings(items) <==> exists i :: 0 <= i < |items| && Occurs(items[i], t)
  {
    if items != [] {
      StringsOccur(items[0], t);
      ItemStringsOccur(items[1..], t);
      if t in ItemStrings(items[1..]) {
        var i :| 0 <= i < |items[1..]| && Occurs(items[1..][i], t);
        assert Occurs(items[i + 1], t);
      }
      if exists i :: 0 < i < |items| && Occurs(items[i], t) {
        var i :| 0 < i < |items| && Occurs(items[i], t);
        assert Occurs(items[1..][i - 1], t);
      }
    }
  }

  ghost predicate MemberOccurs(m: Keyed<Json>, t: Text) {
    m.key == t || Occurs(m.val, t)
  }

  lemma {:induction false} MemberStringsOccur(members: seq<Keyed<Json>>, t: Text)
    ensures t in MemberStrings(members) <==> exists i :: 0 <= i < |members| && (members[i].key == t || Occurs(members[i].val, t))
  {
    if members != [] {
      var rest := members[1..];
      StringsOccur(members[0].val, t);
      MemberStringsOccur(rest, t);
      assert t in MemberStrings(members) <==> MemberOccurs(members[0], t) || t in MemberStrings(rest);
      if t in MemberStrings(rest) {
        var i :| 0 <= i < |rest| && (rest[i].key == t || Occurs(rest[i].val, t));
        assert members[i + 1] == rest[i];
      }
      if exists i :: 0 < i < |members| && (members[i].key == t || Occurs(members[i].val, t)) {
        var i :| 0 < i < |members| && (members[i].key == t || Occurs(members[i].val, t));
        assert rest[i - 1] == members[i];
      }
    }
  }

  method CollectStrings(value: Json, into: seq<Text>) returns (found: seq<Text>)
    ensures found == into + Strings(value)
    decreases value
  {
    found := into;
    match value {
      case String(t) =>
        found := found + [t];
      case Array(items) =>
        var i := 0;
        assert items[0..] == items;
        while i < |items|
          invariant 0 <= i <= |items| && found + ItemStrings(items[i..]) == into + Strings(value)
        {
          assert items[i..][1..] == items[i + 1..];
          Regroup(found, Strings(items[i]), ItemStrings(items[i + 1..]));
          found := CollectStrings(items[i], found);
          i := i + 1;
        }
        assert items[i..] == [];
      case Object(members) =>
        var i := 0;
        assert members[0..] == members;
        while i < |members|
          invariant 0 <= i <= |members| && found + MemberStrings(members[i..]) == into + Strings(value)
        {
          assert members[i..][1..] == members[i + 1..];
          Regroup([members[i].key], Strings(members[i].val), MemberStrings(members[i + 1..]));
          Regroup(found, [members[i].key], Strings(members[i].val) + MemberStrings(members[i + 1..]));
          found := found + [members[i].key];
          Regroup(found, Strings(members[i].val), MemberStrings(members[i + 1..]));
          found := CollectStrings(members[i].val, found);
          i := i + 1;
        }
        assert members[i..] == [];
      case _ =>
    }
  }

  /** `assertFreeOfSecrets`: accepts exactly the values that hold no secret anywhere. */
  method AssertFreeOfSecrets(value: Json, secrets: seq<Option<Text>>) returns (free: bool)
    ensures free <==>
              forall s, t :: Some(s) in secrets && s != [] && Occurs(value, t) ==> !Contains(t, s)
  {
    hide Contains;
    var strings := CollectStrings(value, []);
    forall t ensures t in strings <==> Occurs(value, t) {
      StringsOccur(value, t);
    }
    var i := 0;
    while i < |secrets|
      invariant 0 <= i <= |secrets|
      invariant forall s, t :: Some(s) in secrets[..i] && s != [] && t in strings ==> !Contains(t, s)
    {
      var secret := secrets[i];
      assert secrets[..i + 1] == secrets[..i] + [secret];
      if secret.Some? && secret.value != [] && exists t :: t in strings && Contains(t, secret.value) {
        assert secret in secrets;
        return false;
      }
      i := i + 1;
    }
    assert secrets[..i] == secrets;
    free := true;
  }

  /** Evidence whose strings were all scrubbed is accepted. */
  lemma ScrubbedIsAccepted(value: Json, secrets: seq<Option<Text>>)
    requires forall s :: Some(s) in secrets && s != [] ==> Scrubbable(s)
    requires forall t :: Occurs(value, t) ==> exists text :: t == Scrub(text, secrets)
    ensures forall s, t :: Some(s) in secrets && s != [] && Occurs(value, t) ==> !Contains(t, s)
  {
    hide Contains, Scrub, Scrubbable, Occurs;
    forall s, t | Some(s) in secrets && s != [] && Occurs(value, t) ensures !Contains(t, s) {
      var text :| t == Scrub(text, secrets);
      NoSecretRemains(text, secrets, s);
    }
  }
}
