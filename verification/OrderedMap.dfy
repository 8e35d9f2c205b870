/** An insertion-ordered map from text keys, as JavaScript's `Map`. */
module OrderedMap {
  import opened Wrappers
  import opened Utf16

  function Find<T>(s: seq<Keyed<T>>, key: Text): Option<T> {
    if s == [] then None else if s[0].key == key then Some(s[0].val) else Find(s[1..], key)
  }

  /** `Map.set`: replace in place or append. */
  function Set<T>(s: seq<Keyed<T>>, key: Text, val: T): seq<Keyed<T>> {
    if s == [] then [Keyed(key, val)]
    else if s[0].key == key then [Keyed(key, val)] + s[1..]
    else [s[0]] + Set(s[1..], key, val)
  }

  /** `Map.delete`. */
  function Delete<T>(s: seq<Keyed<T>>, key: Text): (r: seq<Keyed<T>>)
    ensures |s| - 1 <= |r| <= |s|
    ensures |r| == |s| ==> r == s
  {
    if s == [] then [] else if s[0].key == key then s[1..] else [s[0]] + Delete(s[1..], key)
  }

  lemma {:induction false} FindMeans<T>(s: seq<Keyed<T>>, key: Text)
    requires DistinctKeys(s)
    ensures forall v :: Keyed(key, v) in s <==> Find(s, key) == Some(v)
  {
    if s != [] {
      HeadAndTail(s);
      FindMeans(s[1..], key);
      assert DistinctKeys(s[1..]);
      if s[0].key == key {
        assert forall i :: 0 <= i < |s[1..]| ==> s[1..][i].key != key;
      }
    }
  }

  lemma {:induction false} SetKeys<T>(s: seq<Keyed<T>>, key: Text, val: T)
    ensures forall k :: Find(Set(s, key, val), k) == if k == key then Some(val) else Find(s, k)
    ensures DistinctKeys(s) ==> DistinctKeys(Set(s, key, val))
    ensures forall x :: x in Set(s, key, val) ==> x == Keyed(key, val) || x in s
  {
    if s != [] && s[0].key != key {
      SetKeys(s[1..], key, val);
      HeadAndTail(s);
      var rest := Set(s[1..], key, val);
      Uncons(s[0], rest);
      if DistinctKeys(s) {
        forall i | 0 <= i < |rest| ensures rest[i].key != s[0].key {
          assert rest[i] in rest;
          if rest[i] in s[1..] {
            var j :| 0 <= j < |s[1..]| && s[1..][j] == rest[i];
          }
        }
      }
    }
  }

  /** A key not there yet is appended. */
  lemma {:induction false} SetAppends<T>(s: seq<Keyed<T>>, key: Text, val: T)
    requires forall i :: 0 <= i < |s| ==> s[i].key != key
    ensures Set(s, key, val) == s + [Keyed(key, val)]
  {
    if s != [] {
      SetAppends(s[1..], key, val);
    }
  }

  lemma {:induction false} DeleteKeys<T>(s: seq<Keyed<T>>, key: Text)
    requires DistinctKeys(s)
    ensures forall k :: Find(Delete(s, key), k) == if k == key then None else Find(s, k)
    ensures DistinctKeys(Delete(s, key))
    ensures forall x :: x in Delete(s, key) ==> x in s
  {
    if s != [] {
      HeadAndTail(s);
      assert DistinctKeys(s[1..]);
      if s[0].key == key {
        NotFound(s[1..], key);
      } else {
        DeleteKeys(s[1..], key);
        var rest := Delete(s[1..], key);
        Uncons(s[0], rest);
        forall i | 0 <= i < |rest| ensures rest[i].key != s[0].key {
          assert rest[i] in rest;
          var j :| 0 <= j < |s[1..]| && s[1..][j] == rest[i];
        }
      }
    }
  }

  lemma {:induction false} NotFound<T>(s: seq<Keyed<T>>, key: Text)
    requires forall i :: 0 <= i < |s| ==> s[i].key != key
    ensures Find(s, key).None?
  {
    if s != [] {
      NotFound(s[1..], key);
    }
  }
}
