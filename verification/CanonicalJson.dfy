/**
 The canonical JSON printer (RFC 8785, sections 3.2.2 and 3.2.3): members sorted by
 code unit, undefined members dropped, no white space. The results: a JSON parser
 recovers the value from its text, and two values share a text exactly when they are
 the same data.
 */
module CanonicalJson {
  import opened Wrappers
  import opened Utf16
  import opened Json

  /**
   A JavaScript value as the printer tells them apart. A finite number is the token
   `JSON.stringify` spells it with; an object is its own enumerable members in
   insertion order; everything else the printer refuses is `Unsupported`.
   */
  datatype JsValue =
    | JsNull
    | JsBool(b: bool)
    | JsNumber(token: Text)
    | JsNegativeZero
    | JsNonFinite
    | JsString(s: Text)
    | JsArray(items: seq<JsValue>)
    | JsObject(plain: bool, members: seq<Keyed<JsValue>>)
    | JsUndefined
    | JsUnsupported

  const ZERO_TEXT: Text := [0x30]

  /** `canonicalizeValue`; `None` is the `TypeError` the printer throws. */
  function Canonicalize(v: JsValue): Option<Text>
    decreases v, 1
  {
    match v
    case JsNull => Some(NULL_TEXT)
    case JsBool(b) => Some(if b then TRUE_TEXT else FALSE_TEXT)
    case JsNumber(token) => Some(token)
    case JsNegativeZero => Some(ZERO_TEXT)
    case JsNonFinite => None
    case JsString(s) => Some(Quote(s))
    case JsArray(items) =>
      var texts :- CanonicalItems(items);
      Some([OPEN_BRACKET] + JoinTexts(texts) + [CLOSE_BRACKET])
    case JsObject(plain, members) =>
      if !plain then None
      else
        var texts :- CanonicalMembers(members);
        Some([OPEN_BRACE] + JoinMembers(Sort(texts)) + [CLOSE_BRACE])
    case JsUndefined => None
    case JsUnsupported => None
  }

  function CanonicalItems(items: seq<JsValue>): Option<seq<Text>>
    decreases items, 0
  {
    if items == [] then Some([])
    else
      var head :- Canonicalize(items[0]);
      var tail :- CanonicalItems(items[1..]);
      Some([head] + tail)
  }

  /** Each defined member's name and value text, in insertion order. */
  function CanonicalMembers(members: seq<Keyed<JsValue>>): Option<seq<Keyed<Text>>>
    decreases members, 0
  {
    if members == [] then Some([])
    else if members[0].val.JsUndefined? then CanonicalMembers(members[1..])
    else
      var head :- Canonicalize(members[0].val);
      var tail :- CanonicalMembers(members[1..]);
      Some([Keyed(members[0].key, head)] + tail)
  }

  function JoinTexts(texts: seq<Text>): Text {
    if texts == [] then []
    else if |texts| == 1 then texts[0]
    else texts[0] + [COMMA] + JoinTexts(texts[1..])
  }

  function JoinMembers(texts: seq<Keyed<Text>>): Text {
    if texts == [] then []
    else
      var member := Quote(texts[0].key) + [COLON] + texts[0].val;
      if |texts| == 1 then member else member + [COMMA] + JoinMembers(texts[1..])
  }

  /** A JavaScript object holds each name once; a number token is spelled properly. */
  ghost predicate WellFormed(v: JsValue) {
    match v
    case JsNumber(token) => IsNumberToken(token)
    case JsArray(items) => forall i :: 0 <= i < |items| ==> WellFormed(items[i])
    case JsObject(_, members) =>
      DistinctKeys(members) && forall i :: 0 <= i < |members| ==> WellFormed(members[i].val)
    case _ => true
  }

  /** The same JSON data: object members compared by name, order and undefined members ignored. */
  ghost predicate Same(v: JsValue, w: JsValue) {
    match v
    case JsNumber(token) => w == v || (w.JsNegativeZero? && token == ZERO_TEXT)
    case JsNegativeZero => w == v || w == JsNumber(ZERO_TEXT)
    case JsArray(items) =>
      w.JsArray? && |items| == |w.items|
      && forall i :: 0 <= i < |items| ==> Same(items[i], w.items[i])
    case JsObject(_, a) =>
      w.JsObject?
      && (forall i :: 0 <= i < |a| && !a[i].val.JsUndefined? ==> FoundIn(a[i], w.members))
      && (forall j :: 0 <= j < |w.members| && !w.members[j].val.JsUndefined? ==> Covered(a, w.members[j]))
    case _ => w == v
  }

  /** Some member of `b` has the name of `m` and the same data. */
  ghost predicate FoundIn(m: Keyed<JsValue>, b: seq<Keyed<JsValue>>) {
    exists j :: 0 <= j < |b| && b[j].key == m.key && Same(m.val, b[j].val)
  }

  /** Some member of `a` has the name of `m` and the same data. */
  ghost predicate Covered(a: seq<Keyed<JsValue>>, m: Keyed<JsValue>) {
    exists i :: 0 <= i < |a| && a[i].key == m.key && Same(a[i].val, m.val)
  }

  // ---- The value a canonical text spells ----

  /** The value with its members sorted and its undefined members dropped. */
  function Canonical(v: JsValue): Option<Json>
    decreases v, 1
  {
    match v
    case JsNull => Some(Null)
    case JsBool(b) => Some(Bool(b))
    case JsNumber(token) => Some(Number(token))
    case JsNegativeZero => Some(Number(ZERO_TEXT))
    case JsString(s) => Some(String(s))
    case JsArray(items) =>
      var values :- CanonicalValues(items);
      Some(Array(values))
    case JsObject(plain, members) =>
      if !plain then None
      else
        var values :- DefinedMembers(members);
        Some(Object(Sort(values)))
    case _ => None
  }

  function CanonicalValues(items: seq<JsValue>): Option<seq<Json>>
    decreases items, 0
  {
    if items == [] then Some([])
    else
      var head :- Canonical(items[0]);
      var tail :- CanonicalValues(items[1..]);
      Some([head] + tail)
  }

  function DefinedMembers(members: seq<Keyed<JsValue>>): Option<seq<Keyed<Json>>>
    decreases members, 0
  {
    if members == [] then Some([])
    else if members[0].val.JsUndefined? then DefinedMembers(members[1..])
    else
      var head :- Canonical(members[0].val);
      var tail :- DefinedMembers(members[1..]);
      Some([Keyed(members[0].key, head)] + tail)
  }

  // ---- The printer spells the canonical value ----

  lemma {:induction false} JoinMembersPrints(s: seq<Keyed<Json>>)
    ensures JoinMembers(MapValues(Stringify, s)) == StringifyMembers(s)
  {
    if s != [] {
      JoinMembersPrints(s[1..]);
    }
  }

  /** The printed text is `JSON.stringify` of the canonical value, and both refuse together. */
  lemma {:induction false} CanonicalizePrints(v: JsValue)
    ensures Canonicalize(v).Some? <==> Canonical(v).Some?
    ensures Canonicalize(v).Some? ==> Canonicalize(v).value == Stringify(Canonical(v).value)
    decreases v, 1
  {
    match v
    case JsArray(items) =>
      ItemsPrint(items);
    case JsObject(plain, members) =>
      if plain {
        MembersPrint(members);
        if DefinedMembers(members).Some? {
          var values := DefinedMembers(members).value;
          MapSort(Stringify, values);
          JoinMembersPrints(Sort(values));
        }
      }
    case _ =>
  }

  lemma {:induction false} ItemsPrint(items: seq<JsValue>)
    ensures CanonicalItems(items).Some? <==> CanonicalValues(items).Some?
    ensures CanonicalItems(items).Some? ==>
            |CanonicalItems(items).value| == |CanonicalValues(items).value| == |items|
    ensures CanonicalItems(items).Some? ==>
            JoinTexts(CanonicalItems(items).value) == StringifyItems(CanonicalValues(items).value)
    decreases items, 0
  {
    if items != [] {
      CanonicalizePrints(items[0]);
      ItemsPrint(items[1..]);
    }
  }

  lemma {:induction false} MembersPrint(members: seq<Keyed<JsValue>>)
    ensures CanonicalMembers(members).Some? <==> DefinedMembers(members).Some?
    ensures CanonicalMembers(members).Some? ==>
            CanonicalMembers(members).value == MapValues(Stringify, DefinedMembers(members).value)
    decreases members, 0
  {
    if members != [] {
      MembersPrint(members[1..]);
      CanonicalizePrints(members[0].val);
    }
  }

  // ---- What the canonical members are ----

  lemma {:induction false} ItemsAt(items: seq<JsValue>)
    requires CanonicalValues(items).Some?
    ensures |CanonicalValues(items).value| == |items|
    ensures forall i :: 0 <= i < |items| ==> Canonical(items[i]) == Some(CanonicalValues(items).value[i])
  {
    if items != [] {
      ItemsAt(items[1..]);
    }
  }

  lemma {:induction false} MemberAt(members: seq<Keyed<JsValue>>, i: nat)
    requires DefinedMembers(members).Some? && i < |members| && !members[i].val.JsUndefined?
    ensures Canonical(members[i].val).Some?
    ensures Keyed(members[i].key, Canonical(members[i].val).value) in DefinedMembers(members).value
  {
    if i > 0 {
      MemberAt(members[1..], i - 1);
    }
  }

  lemma {:induction false} MemberFrom(members: seq<Keyed<JsValue>>, m: Keyed<Json>) returns (i: nat)
    requires DefinedMembers(members).Some? && m in DefinedMembers(members).value
    ensures i < |members| && !members[i].val.JsUndefined?
    ensures members[i].key == m.key && Canonical(members[i].val) == Some(m.val)
  {
    if !members[0].val.JsUndefined? && m == Keyed(members[0].key, Canonical(members[0].val).value) {
      i := 0;
    } else {
      i := MemberFrom(members[1..], m);
      i := i + 1;
    }
  }

  lemma {:induction false} MembersDistinct(members: seq<Keyed<JsValue>>)
    requires DefinedMembers(members).Some? && DistinctKeys(members)
    ensures DistinctKeys(DefinedMembers(members).value)
  {
    if members != [] {
      MembersDistinct(members[1..]);
      if !members[0].val.JsUndefined? {
        var tail := DefinedMembers(members[1..]).value;
        forall j | 0 <= j < |tail| ensures tail[j].key != members[0].key {
          var i := MemberFrom(members[1..], tail[j]);
        }
      }
    }
  }

  /** A canonical value is spelled with proper number tokens and sorted at the top. */
  lemma {:induction false} CanonicalWellSpelled(v: JsValue)
    requires WellFormed(v) && Canonical(v).Some?
    ensures WellSpelled(Canonical(v).value)
  {
    match v
    case JsArray(items) =>
      ItemsAt(items);
      forall i | 0 <= i < |items| ensures WellSpelled(CanonicalValues(items).value[i]) {
        CanonicalWellSpelled(items[i]);
      }
    case JsObject(plain, members) =>
      var values := DefinedMembers(members).value;
      SortContents(values);
      forall k | 0 <= k < |values| ensures WellSpelled(Sort(values)[k].val) {
        assert Sort(values)[k] in multiset(Sort(values));
        var i := MemberFrom(members, Sort(values)[k]);
        CanonicalWellSpelled(members[i].val);
      }
    case JsNegativeZero =>
      assert ZERO_TEXT[0..] == ZERO_TEXT;
      assert ZERO_TEXT[1..] == [];
      assert IntegerLength(ZERO_TEXT) == 1;
    case _ =>
  }

  // ---- Results ----

  /** A JSON parser recovers the value from its canonical text, members in sorted order. */
  lemma ParseRecovers(v: JsValue)
    requires WellFormed(v) && Canonicalize(v).Some?
    ensures Canonical(v).Some? && Parse(Canonicalize(v).value) == Canonical(v)
  {
    CanonicalizePrints(v);
    CanonicalWellSpelled(v);
    ParseStringify(Canonical(v).value);
  }

  /** Equal canonical values are the same data. */
  lemma {:induction false} EqualCanonicalSame(v: JsValue, w: JsValue)
    requires WellFormed(v) && WellFormed(w)
    requires Canonical(v).Some? && Canonical(v) == Canonical(w)
    ensures Same(v, w)
  {
    match v
    case JsArray(items) =>
      ItemsAt(items);
      ItemsAt(w.items);
      forall i | 0 <= i < |items| ensures Same(items[i], w.items[i]) {
        EqualCanonicalSame(items[i], w.items[i]);
      }
    case JsObject(_, a) =>
      EqualMembersSame(a, w.members);
    case _ =>
  }

  /** The member of `b` whose canonical form is that of `a[i]`. */
  lemma {:induction false} EqualMemberSame(a: seq<Keyed<JsValue>>, b: seq<Keyed<JsValue>>, i: nat) returns (j: nat)
    requires WellFormed(JsObject(true, a)) && WellFormed(JsObject(true, b))
    requires DefinedMembers(a).Some? && DefinedMembers(b).Some?
    requires multiset(DefinedMembers(a).value) == multiset(DefinedMembers(b).value)
    requires i < |a| && !a[i].val.JsUndefined?
    ensures j < |b| && b[j].key == a[i].key
    ensures Canonical(a[i].val).Some? && Canonical(a[i].val) == Canonical(b[j].val)
    ensures WellFormed(a[i].val) && WellFormed(b[j].val)
  {
    hide DefinedMembers, Canonical;
    MemberAt(a, i);
    var m := Keyed(a[i].key, Canonical(a[i].val).value);
    assert m in multiset(DefinedMembers(a).value);
    assert m in multiset(DefinedMembers(b).value);
    j := MemberFrom(b, m);
  }

  lemma {:induction false} EqualMembersSame(a: seq<Keyed<JsValue>>, b: seq<Keyed<JsValue>>)
    requires WellFormed(JsObject(true, a)) && WellFormed(JsObject(true, b))
    requires DefinedMembers(a).Some? && DefinedMembers(b).Some?
    requires Sort(DefinedMembers(a).value) == Sort(DefinedMembers(b).value)
    ensures Same(JsObject(true, a), JsObject(true, b))
    decreases a, 0
  {
    hide DefinedMembers, Canonical, WellFormed, Sort;
    SortContents(DefinedMembers(a).value);
    SortContents(DefinedMembers(b).value);
    forall i | 0 <= i < |a| && !a[i].val.JsUndefined?
      ensures FoundIn(a[i], b)
    {
      var j := EqualMemberSame(a, b, i);
      EqualCanonicalSame(a[i].val, b[j].val);
    }
    forall j | 0 <= j < |b| && !b[j].val.JsUndefined?
      ensures Covered(a, b[j])
    {
      var i := EqualMemberSame(b, a, j);
      EqualCanonicalSame(a[i].val, b[j].val);
    }
  }

  /** The same data has one canonical value. */
  lemma {:induction false} SameEqualCanonical(v: JsValue, w: JsValue)
    requires WellFormed(v) && WellFormed(w) && Same(v, w)
    requires Canonical(v).Some? && Canonical(w).Some?
    ensures Canonical(v) == Canonical(w)
    decreases v, 2
  {
    match v
    case JsArray(items) =>
      ItemsAt(items);
      ItemsAt(w.items);
      forall i | 0 <= i < |items| ensures CanonicalValues(items).value[i] == CanonicalValues(w.items).value[i] {
        SameEqualCanonical(items[i], w.items[i]);
      }
      assert CanonicalValues(items).value == CanonicalValues(w.items).value;
    case JsObject(_, a) =>
      SameMembersEqual(v, w);
    case _ =>
  }

  lemma {:induction false} SameMembersEqual(v: JsValue, w: JsValue)
    requires v.JsObject? && w.JsObject?
    requires WellFormed(v) && WellFormed(w) && Same(v, w)
    requires DefinedMembers(v.members).Some? && DefinedMembers(w.members).Some?
    ensures Sort(DefinedMembers(v.members).value) == Sort(DefinedMembers(w.members).value)
    decreases v, 1
  {
    hide Sort, Same, DefinedMembers;
    var x, y := DefinedMembers(v.members).value, DefinedMembers(w.members).value;
    MembersDistinct(v.members);
    MembersDistinct(w.members);
    forall m | m in x ensures m in y {
      SameMemberForward(v, w, m);
    }
    forall m | m in y ensures m in x {
      SameMemberBackward(v, w, m);
    }
    SameContents(x, y);
    SortIgnoresOrder(x, y);
  }

  lemma {:induction false} SameMemberForward(v: JsValue, w: JsValue, m: Keyed<Json>)
    requires v.JsObject? && w.JsObject?
    requires WellFormed(v) && WellFormed(w) && Same(v, w)
    requires DefinedMembers(v.members).Some? && DefinedMembers(w.members).Some?
    requires m in DefinedMembers(v.members).value
    ensures m in DefinedMembers(w.members).value
    decreases v, 0
  {
    hide DefinedMembers, Canonical;
    var i := MemberFrom(v.members, m);
    assert FoundIn(v.members[i], w.members);
    var j :| 0 <= j < |w.members| && w.members[j].key == m.key && Same(v.members[i].val, w.members[j].val);
    MemberAt(w.members, j);
    SameEqualCanonical(v.members[i].val, w.members[j].val);
  }

  lemma {:induction false} SameMemberBackward(v: JsValue, w: JsValue, m: Keyed<Json>)
    requires v.JsObject? && w.JsObject?
    requires WellFormed(v) && WellFormed(w) && Same(v, w)
    requires DefinedMembers(v.members).Some? && DefinedMembers(w.members).Some?
    requires m in DefinedMembers(w.members).value
    ensures m in DefinedMembers(v.members).value
    decreases v, 0
  {
    hide DefinedMembers, Canonical;
    var j := MemberFrom(w.members, m);
    assert Covered(v.members, w.members[j]);
    var i :| 0 <= i < |v.members| && v.members[i].key == m.key && Same(v.members[i].val, w.members[j].val);
    MemberAt(v.members, i);
    SameEqualCanonical(v.members[i].val, w.members[j].val);
  }

  /** Unambiguity: two printable values share their text exactly when they are the same data. */
  lemma TextDecidesData(v: JsValue, w: JsValue)
    requires WellFormed(v) && WellFormed(w)
    requires Canonicalize(v).Some? && Canonicalize(w).Some?
    ensures Canonicalize(v) == Canonicalize(w) <==> Same(v, w)
  {
    ParseRecovers(v);
    ParseRecovers(w);
    CanonicalizePrints(v);
    CanonicalizePrints(w);
    if Canonicalize(v) == Canonicalize(w) {
      EqualCanonicalSame(v, w);
    }
    if Same(v, w) {
      SameEqualCanonical(v, w);
    }
  }

  lemma {:induction false} MembersSucceed(members: seq<Keyed<JsValue>>)
    ensures CanonicalMembers(members).Some? <==>
            forall i :: 0 <= i < |members| && !members[i].val.JsUndefined? ==> Canonicalize(members[i].val).Some?
  {
    if members != [] {
      MembersSucceed(members[1..]);
      assert members == [members[0]] + members[1..];
    }
  }

  lemma {:induction false} SameReflexive(v: JsValue)
    ensures Same(v, v)
  {
    match v
    case JsArray(items) =>
      forall i | 0 <= i < |items| ensures Same(items[i], items[i]) {
        SameReflexive(items[i]);
      }
    case JsObject(_, a) =>
      forall i | 0 <= i < |a| ensures FoundIn(a[i], a) && Covered(a, a[i]) {
        SameReflexive(a[i].val);
      }
    case _ =>
  }

  lemma ShuffledSame(a: seq<Keyed<JsValue>>, b: seq<Keyed<JsValue>>)
    requires multiset(a) == multiset(b)
    ensures Same(JsObject(true, a), JsObject(true, b))
  {
    forall i | 0 <= i < |a| ensures FoundIn(a[i], b) {
      assert a[i] in multiset(b);
      SameReflexive(a[i].val);
    }
    forall j | 0 <= j < |b| ensures Covered(a, b[j]) {
      assert b[j] in multiset(a);
      SameReflexive(b[j].val);
    }
    hide FoundIn, Covered;
  }

  /** Insertion order never changes the text, nor whether there is one. */
  lemma InsertionOrderIgnored(a: seq<Keyed<JsValue>>, b: seq<Keyed<JsValue>>)
    requires WellFormed(JsObject(true, a)) && multiset(a) == multiset(b)
    ensures Canonicalize(JsObject(true, a)) == Canonicalize(JsObject(true, b))
  {
    hide Same;
    var v, w := JsObject(true, a), JsObject(true, b);
    DistinctByContents(a, b);
    forall j | 0 <= j < |b| ensures WellFormed(b[j].val) {
      assert b[j] in multiset(a);
    }
    forall i | 0 <= i < |a| ensures a[i] in b {
      assert a[i] in multiset(b);
    }
    forall j | 0 <= j < |b| ensures b[j] in a {
      assert b[j] in multiset(a);
    }
    MembersSucceed(a);
    MembersSucceed(b);
    if Canonicalize(v).Some? {
      ShuffledSame(a, b);
      TextDecidesData(v, w);
    }
  }

  // ---- Canonicalizing what was read back ----

  /** Sorted, without repeats, at every depth. */
  ghost predicate Settled(j: Json) {
    match j
    case Number(token) => IsNumberToken(token)
    case Array(items) => forall i :: 0 <= i < |items| ==> Settled(items[i])
    case Object(members) =>
      Sorted(members) && DistinctKeys(members)
      && forall i :: 0 <= i < |members| ==> Settled(members[i].val)
    case _ => true
  }

  function FromJson(j: Json): JsValue
    decreases j, 1
  {
    match j
    case Null => JsNull
    case Bool(b) => JsBool(b)
    case Number(token) => JsNumber(token)
    case String(s) => JsString(s)
    case Array(items) => JsArray(FromItems(items))
    case Object(members) => JsObject(true, FromMembers(members))
  }

  function FromItems(items: seq<Json>): (r: seq<JsValue>)
    ensures |r| == |items|
    decreases items, 0
  {
    if items == [] then [] else [FromJson(items[0])] + FromItems(items[1..])
  }

  function FromMembers(members: seq<Keyed<Json>>): (r: seq<Keyed<JsValue>>)
    ensures |r| == |members| && forall i :: 0 <= i < |r| ==> r[i].key == members[i].key
    decreases members, 0
  {
    if members == [] then []
    else [Keyed(members[0].key, FromJson(members[0].val))] + FromMembers(members[1..])
  }

  lemma {:induction false} CanonicalSettled(v: JsValue)
    requires WellFormed(v) && Canonical(v).Some?
    ensures Settled(Canonical(v).value)
  {
    match v
    case JsArray(items) =>
      ItemsAt(items);
      forall i | 0 <= i < |items| ensures Settled(CanonicalValues(items).value[i]) {
        CanonicalSettled(items[i]);
      }
    case JsObject(_, members) =>
      var values := DefinedMembers(members).value;
      SortContents(values);
      SortSorted(values);
      MembersDistinct(members);
      DistinctByContents(values, Sort(values));
      forall k | 0 <= k < |values| ensures Settled(Sort(values)[k].val) {
        assert Sort(values)[k] in multiset(Sort(values));
        var i := MemberFrom(members, Sort(values)[k]);
        CanonicalSettled(members[i].val);
      }
    case _ =>
      CanonicalWellSpelled(v);
  }

  lemma {:induction false} SettledStays(j: Json)
    requires Settled(j)
    ensures Canonical(FromJson(j)) == Some(j) && WellFormed(FromJson(j))
    decreases j, 1
  {
    match j
    case Array(items) => SettledItemsStay(items);
    case Object(members) =>
      SettledMembersStay(members);
      SortFixesSorted(members);
    case _ =>
  }

  lemma {:induction false} SettledItemsStay(items: seq<Json>)
    requires forall i :: 0 <= i < |items| ==> Settled(items[i])
    ensures CanonicalValues(FromItems(items)) == Some(items)
    ensures forall i :: 0 <= i < |items| ==> WellFormed(FromItems(items)[i])
    decreases items, 0
  {
    hide Settled, Canonical, FromJson, WellFormed;
    if items != [] {
      SettledStays(items[0]);
      SettledItemsStay(items[1..]);
      var values, rest := FromItems(items), FromItems(items[1..]);
      Uncons(FromJson(items[0]), rest);
      HeadAndTail(items);
      forall i | 0 <= i < |items| ensures WellFormed(values[i]) {
        if i > 0 {
          assert values[i] == values[1..][i - 1];
        }
      }
    }
  }

  lemma NeverUndefined(j: Json)
    ensures !FromJson(j).JsUndefined?
  {
  }

  lemma {:induction false} SettledMembersStay(members: seq<Keyed<Json>>)
    requires forall i :: 0 <= i < |members| ==> Settled(members[i].val)
    ensures DefinedMembers(FromMembers(members)) == Some(members)
    ensures forall i :: 0 <= i < |members| ==> WellFormed(FromMembers(members)[i].val)
    decreases members, 0
  {
    hide Settled, Canonical, FromJson, WellFormed;
    if members != [] {
      SettledStays(members[0].val);
      NeverUndefined(members[0].val);
      SettledMembersStay(members[1..]);
      var values, rest := FromMembers(members), FromMembers(members[1..]);
      Uncons(Keyed(members[0].key, FromJson(members[0].val)), rest);
      HeadAndTail(members);
      forall i | 0 <= i < |members| ensures WellFormed(values[i].val) {
        if i > 0 {
          assert values[i] == values[1..][i - 1];
        }
      }
    }
  }

  /** What a parser reads from a canonical text is the same data, settled, and prints the same text. */
  lemma RecoveredIsSame(v: JsValue)
    requires WellFormed(v) && Canonicalize(v).Some?
    ensures Parse(Canonicalize(v).value).Some?
    ensures var j := Parse(Canonicalize(v).value).value;
            Settled(j) && Same(v, FromJson(j)) && Canonicalize(FromJson(j)) == Canonicalize(v)
  {
    ParseRecovers(v);
    CanonicalSettled(v);
    var j := Canonical(v).value;
    SettledStays(j);
    CanonicalizePrints(v);
    CanonicalizePrints(FromJson(j));
    TextDecidesData(v, FromJson(j));
  }
}
