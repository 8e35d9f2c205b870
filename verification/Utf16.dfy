/**
 JavaScript text as a sequence of UTF-16 code units, its `<` order, and the stable
 sort of keyed records that every canonical form of the repository rests on.
 */
module Utf16 {
  type CodeUnit = u: int | 0 <= u < 0x1_0000
  type Text = seq<CodeUnit>

  /** A record filed under a text key: an object member, a file, a manifest entry. */
  datatype Keyed<+T> = Keyed(key: Text, val: T)

  // ---- Regrouping concatenations ----

  lemma Regroup<T>(a: seq<T>, b: seq<T>, c: seq<T>)
    ensures a + b + c == a + (b + c)
  {
  }

  lemma HeadAndTail<T>(s: seq<T>)
    requires s != []
    ensures s == [s[0]] + s[1..]
  {
  }

  lemma Uncons<T>(x: T, s: seq<T>)
    ensures ([x] + s)[0] == x && ([x] + s)[1..] == s
  {
  }

  // ---- The code-unit order ----

  /** JavaScript's `a < b` on strings. */
  predicate Less(a: Text, b: Text) {
    if b == [] then false
    else if a == [] then true
    else a[0] < b[0] || (a[0] == b[0] && Less(a[1..], b[1..]))
  }

  lemma {:induction false} LessIrreflexive(a: Text)
    ensures !Less(a, a)
  {
    if a != [] {
      LessIrreflexive(a[1..]);
    }
  }

  lemma {:induction false} LessTransitive(a: Text, b: Text, c: Text)
    requires Less(a, b) && Less(b, c)
    ensures Less(a, c)
  {
    if a != [] && a[0] == b[0] && b[0] == c[0] {
      LessTransitive(a[1..], b[1..], c[1..]);
    }
  }

  lemma {:induction false} LessTotal(a: Text, b: Text)
    ensures Less(a, b) || a == b || Less(b, a)
    ensures Less(a, b) ==> !Less(b, a)
  {
    if a != [] && b != [] && a[0] == b[0] {
      LessTotal(a[1..], b[1..]);
      assert a == [a[0]] + a[1..] && b == [b[0]] + b[1..];
    }
  }

  /** `<=` composes with `<`, the step every insertion needs. */
  lemma NotLessTransitive(a: Text, b: Text, c: Text)
    requires !Less(b, a) && !Less(c, b)
    ensures !Less(c, a)
  {
    LessTotal(a, b);
    LessTotal(b, c);
    LessTotal(a, c);
    if Less(a, b) && Less(b, c) {
      LessTransitive(a, b, c);
    }
  }

  /** A text precedes each of its proper extensions. */
  lemma {:induction false} PrefixLess(a: Text, b: Text)
    requires b != []
    ensures Less(a, a + b)
  {
    if a != [] {
      PrefixLess(a[1..], b);
      assert (a + b)[1..] == a[1..] + b;
    }
  }

  /** The first differing unit decides the order. */
  lemma {:induction false} FirstDiffers(a: Text, b: Text, k: nat)
    requires k < |a| && k < |b| && a[..k] == b[..k] && a[k] < b[k]
    ensures Less(a, b) && !Less(b, a) && a != b
  {
    assert a[k] != b[k];
    if k > 0 {
      assert a[..k][0] == b[..k][0];
      assert a[1..][..k - 1] == a[..k][1..] && b[1..][..k - 1] == b[..k][1..];
      FirstDiffers(a[1..], b[1..], k - 1);
    }
  }

  // ---- Sorting ----

  predicate Sorted<T>(s: seq<Keyed<T>>) {
    forall i, j :: 0 <= i < j < |s| ==> !Less(s[j].key, s[i].key)
  }

  ghost predicate DistinctKeys<T>(s: seq<Keyed<T>>) {
    forall i, j :: 0 <= i < j < |s| ==> s[i].key != s[j].key
  }

  function Insert<T>(x: Keyed<T>, s: seq<Keyed<T>>): seq<Keyed<T>> {
    if s == [] || !Less(s[0].key, x.key) then [x] + s else [s[0]] + Insert(x, s[1..])
  }

  /** The stable sort by key: JavaScript's `sort` with a code-unit comparator. */
  function Sort<T>(s: seq<Keyed<T>>): seq<Keyed<T>> {
    if s == [] then [] else Insert(s[0], Sort(s[1..]))
  }

  lemma {:induction false} InsertContents<T>(x: Keyed<T>, s: seq<Keyed<T>>)
    ensures multiset(Insert(x, s)) == multiset{x} + multiset(s)
    ensures |Insert(x, s)| == |s| + 1
  {
    if s != [] && Less(s[0].key, x.key) {
      InsertContents(x, s[1..]);
      assert s == [s[0]] + s[1..];
    }
  }

  lemma {:induction false} SortContents<T>(s: seq<Keyed<T>>)
    ensures multiset(Sort(s)) == multiset(s)
    ensures |Sort(s)| == |s|
  {
    if s != [] {
      SortContents(s[1..]);
      InsertContents(s[0], Sort(s[1..]));
      assert s == [s[0]] + s[1..];
    }
  }

  lemma {:induction false} InsertSorted<T>(x: Keyed<T>, s: seq<Keyed<T>>)
    requires Sorted(s)
    ensures Sorted(Insert(x, s))
  {
    if s == [] {
    } else if !Less(s[0].key, x.key) {
      forall j | 0 <= j < |s| ensures !Less(s[j].key, x.key) {
        if j > 0 {
          NotLessTransitive(x.key, s[0].key, s[j].key);
        }
      }
    } else {
      InsertSorted(x, s[1..]);
      InsertContents(x, s[1..]);
      LessTotal(s[0].key, x.key);
      var r := Insert(x, s[1..]);
      forall j | 0 <= j < |r| ensures !Less(r[j].key, s[0].key) {
        assert r[j] in multiset(r);
        assert r[j] == x || r[j] in s[1..];
      }
    }
  }

  lemma {:induction false} SortSorted<T>(s: seq<Keyed<T>>)
    ensures Sorted(Sort(s))
  {
    if s != [] {
      SortSorted(s[1..]);
      InsertSorted(s[0], Sort(s[1..]));
    }
  }

  /** Sorting twice is sorting once: a sorted list is left alone. */
  lemma {:induction false} SortFixesSorted<T>(s: seq<Keyed<T>>)
    requires Sorted(s)
    ensures Sort(s) == s
  {
    if s != [] {
      SortFixesSorted(s[1..]);
      assert s == [s[0]] + s[1..];
    }
  }

  lemma DistinctByContents<T>(a: seq<Keyed<T>>, b: seq<Keyed<T>>)
    requires multiset(a) == multiset(b) && DistinctKeys(a)
    ensures DistinctKeys(b)
  {
    forall i, j | 0 <= i < j < |b| ensures b[i].key != b[j].key {
      if b[i].key == b[j].key {
        assert b[i] in multiset(b) && b[j] in multiset(b);
        var p :| 0 <= p < |a| && a[p] == b[i];
        var q :| 0 <= q < |a| && a[q] == b[j];
        assert p == q;
        TwiceInMultiset(b, i, j);
        OnceInMultiset(a, p);
      }
    }
  }

  lemma TwiceInMultiset<T>(s: seq<T>, i: nat, j: nat)
    requires i < j < |s| && s[i] == s[j]
    ensures multiset(s)[s[i]] >= 2
  {
    assert s == s[..j] + [s[j]] + s[j + 1..];
    assert s[..j][i] == s[j];
    assert s[j] in multiset(s[..j]);
  }

  lemma OnceInMultiset<T>(s: seq<Keyed<T>>, i: nat)
    requires i < |s| && DistinctKeys(s)
    ensures multiset(s)[s[i]] == 1
  {
    assert s == s[..i] + [s[i]] + s[i + 1..];
    assert s[i] !in s[..i] && s[i] !in s[i + 1..];
  }

  lemma SameContents<T>(a: seq<Keyed<T>>, b: seq<Keyed<T>>)
    requires DistinctKeys(a) && DistinctKeys(b)
    requires forall x :: x in a <==> x in b
    ensures multiset(a) == multiset(b)
  {
    forall x ensures multiset(a)[x] == multiset(b)[x] {
      if x in a {
        var i :| 0 <= i < |a| && a[i] == x;
        var j :| 0 <= j < |b| && b[j] == x;
        OnceInMultiset(a, i);
        OnceInMultiset(b, j);
      }
    }
  }

  lemma SameHead<T>(a: seq<Keyed<T>>, b: seq<Keyed<T>>)
    requires Sorted(a) && Sorted(b) && multiset(a) == multiset(b) && DistinctKeys(a) && a != [] && b != []
    ensures a[0] == b[0]
  {
    hide Less;
    DistinctByContents(a, b);
    assert a[0] in multiset(b) && b[0] in multiset(a);
    var i :| 0 <= i < |b| && b[i] == a[0];
    var j :| 0 <= j < |a| && a[j] == b[0];
    LessTotal(a[0].key, b[0].key);
  }

  lemma TailContents<T>(a: seq<T>, b: seq<T>)
    requires a != [] && b != [] && a[0] == b[0] && multiset(a) == multiset(b)
    ensures multiset(a[1..]) == multiset(b[1..])
  {
    assert a == [a[0]] + a[1..] && b == [b[0]] + b[1..];
    assert multiset(a[1..]) == multiset(a) - multiset{a[0]};
    assert multiset(b[1..]) == multiset(b) - multiset{b[0]};
  }

  /** A sorted arrangement of distinctly keyed records is unique. */
  lemma {:induction false} SortedUnique<T>(a: seq<Keyed<T>>, b: seq<Keyed<T>>)
    requires Sorted(a) && Sorted(b) && multiset(a) == multiset(b) && DistinctKeys(a)
    ensures a == b
  {
    hide Less;
    assert |multiset(a)| == |a| && |multiset(b)| == |b|;
    if a != [] {
      SameHead(a, b);
      TailContents(a, b);
      SortedUnique(a[1..], b[1..]);
      assert a == [a[0]] + a[1..] && b == [b[0]] + b[1..];
    }
  }

  /** The input order never shows in the sorted list. */
  lemma SortIgnoresOrder<T>(a: seq<Keyed<T>>, b: seq<Keyed<T>>)
    requires multiset(a) == multiset(b) && DistinctKeys(a)
    ensures Sort(a) == Sort(b)
  {
    SortContents(a);
    SortContents(b);
    SortSorted(a);
    SortSorted(b);
    DistinctByContents(a, Sort(a));
    SortedUnique(Sort(a), Sort(b));
  }

  // ---- Projection and selection ----

  function MapValues<A, B>(f: A -> B, s: seq<Keyed<A>>): seq<Keyed<B>> {
    if s == [] then [] else [Keyed(s[0].key, f(s[0].val))] + MapValues(f, s[1..])
  }

  lemma {:induction false} MapAppend<A, B>(f: A -> B, a: seq<Keyed<A>>, b: seq<Keyed<A>>)
    ensures MapValues(f, a + b) == MapValues(f, a) + MapValues(f, b)
  {
    if a == [] {
      assert a + b == b;
    } else {
      MapAppend(f, a[1..], b);
      assert (a + b)[1..] == a[1..] + b;
    }
  }

  /** The records satisfying `keep`, in order. */
  function Select<T>(keep: Keyed<T> -> bool, s: seq<Keyed<T>>): seq<Keyed<T>> {
    if s == [] then []
    else if keep(s[0]) then [s[0]] + Select(keep, s[1..])
    else Select(keep, s[1..])
  }

  lemma {:induction false} SelectKeepsLowerBound<T>(keep: Keyed<T> -> bool, x: Keyed<T>, s: seq<Keyed<T>>)
    requires Sorted(s) && (s != [] ==> !Less(s[0].key, x.key))
    ensures Insert(x, Select(keep, s)) == [x] + Select(keep, s)
  {
    if s != [] && !keep(s[0]) && |s| > 1 {
      NotLessTransitive(x.key, s[0].key, s[1].key);
      SelectKeepsLowerBound(keep, x, s[1..]);
    }
  }

  lemma {:induction false} SelectInsert<T>(keep: Keyed<T> -> bool, x: Keyed<T>, s: seq<Keyed<T>>)
    requires Sorted(s)
    ensures Select(keep, Insert(x, s)) == if keep(x) then Insert(x, Select(keep, s)) else Select(keep, s)
  {
    if s == [] {
    } else if !Less(s[0].key, x.key) {
      assert ([x] + s)[1..] == s;
      SelectKeepsLowerBound(keep, x, s);
    } else {
      SelectInsert(keep, x, s[1..]);
    }
  }

  /** Selecting and sorting commute. */
  lemma {:induction false} SelectSort<T>(keep: Keyed<T> -> bool, s: seq<Keyed<T>>)
    ensures Select(keep, Sort(s)) == Sort(Select(keep, s))
  {
    if s != [] {
      SelectSort(keep, s[1..]);
      SortSorted(s[1..]);
      SelectInsert(keep, s[0], Sort(s[1..]));
    }
  }

  lemma {:induction false} SelectAppend<T>(keep: Keyed<T> -> bool, a: seq<Keyed<T>>, b: seq<Keyed<T>>)
    ensures Select(keep, a + b) == Select(keep, a) + Select(keep, b)
  {
    if a == [] {
      assert a + b == b;
    } else {
      SelectAppend(keep, a[1..], b);
      assert (a + b)[1..] == a[1..] + b;
    }
  }

  lemma {:induction false} MapInsert<A, B>(f: A -> B, x: Keyed<A>, s: seq<Keyed<A>>)
    ensures MapValues(f, Insert(x, s)) == Insert(Keyed(x.key, f(x.val)), MapValues(f, s))
  {
    if s != [] && Less(s[0].key, x.key) {
      MapInsert(f, x, s[1..]);
    }
  }

  /** Projecting every record and sorting commute. */
  lemma {:induction false} MapSort<A, B>(f: A -> B, s: seq<Keyed<A>>)
    ensures MapValues(f, Sort(s)) == Sort(MapValues(f, s))
  {
    if s != [] {
      MapSort(f, s[1..]);
      MapInsert(f, s[0], Sort(s[1..]));
    }
  }

  // ---- `split` on one separator ----

  /** `text.split(separator)` for a one-unit separator: never empty. */
  function Split(t: Text, sep: CodeUnit): (parts: seq<Text>)
    ensures |parts| >= 1
  {
    if t == [] then [[]]
    else
      var rest := Split(t[1..], sep);
      if t[0] == sep then [[]] + rest else [[t[0]] + rest[0]] + rest[1..]
  }

  function Join(parts: seq<Text>, sep: CodeUnit): Text
    requires |parts| >= 1
  {
    if |parts| == 1 then parts[0] else parts[0] + [sep] + Join(parts[1..], sep)
  }

  /** Splitting loses nothing. */
  lemma {:induction false} JoinSplit(t: Text, sep: CodeUnit)
    ensures Join(Split(t, sep), sep) == t
  {
    if t != [] {
      JoinSplit(t[1..], sep);
    }
  }

  /** The parts when one more unit comes in front. */
  function PutInFront(c: CodeUnit, sep: CodeUnit, parts: seq<Text>): seq<Text>
    requires parts != []
  {
    if c == sep then [[]] + parts else [[c] + parts[0]] + parts[1..]
  }

  lemma SplitStep(c: CodeUnit, t: Text, sep: CodeUnit)
    ensures Split([c] + t, sep) == PutInFront(c, sep, Split(t, sep))
  {
    Uncons(c, t);
  }

  lemma PutInFrontAppend(c: CodeUnit, sep: CodeUnit, front: seq<Text>, back: seq<Text>)
    requires front != []
    ensures PutInFront(c, sep, front + back) == PutInFront(c, sep, front) + back
  {
  }

  /** A separator splits the parts before it from the parts after it. */
  lemma {:induction false} SplitAt(t: Text, sep: CodeUnit, i: nat)
    requires i < |t| && t[i] == sep
    ensures Split(t, sep) == Split(t[..i], sep) + Split(t[i + 1..], sep)
  {
    if i == 0 {
      assert t[..0] == [];
    } else {
      var c, u := t[0], t[1..];
      HeadAndTail(t);
      SplitStep(c, u, sep);
      SplitStep(c, u[..i - 1], sep);
      assert t[..i] == [c] + u[..i - 1] && u[i..] == t[i + 1..];
      hide Split, PutInFront;
      SplitAt(u, sep, i - 1);
      PutInFrontAppend(c, sep, Split(u[..i - 1], sep), Split(u[i..], sep));
    }
  }

  /** Splitting recovers any list of parts free of the separator. */
  lemma {:induction false} SplitJoin(parts: seq<Text>, sep: CodeUnit)
    requires |parts| >= 1 && forall i :: 0 <= i < |parts| ==> sep !in parts[i]
    ensures Split(Join(parts, sep), sep) == parts
    decreases |parts|, if |parts| == 0 then 0 else |parts[0]|
  {
    var t := Join(parts, sep);
    if parts[0] == [] {
      if |parts| > 1 {
        assert t == [sep] + Join(parts[1..], sep);
        SplitJoin(parts[1..], sep);
      }
    } else {
      var c, tail := parts[0][0], parts[0][1..];
      var shorter := [tail] + parts[1..];
      assert shorter[1..] == parts[1..];
      assert parts[0] == [c] + tail && c in parts[0];
      assert t == [c] + Join(shorter, sep);
      forall i | 0 <= i < |shorter| ensures sep !in shorter[i] {
        if i > 0 {
          assert shorter[i] == parts[i];
        }
      }
      SplitJoin(shorter, sep);
      assert t[1..] == Join(shorter, sep);
    }
  }
}
