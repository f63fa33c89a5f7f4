/** Rust's `sort_by_key` on a vector, as `sort_colors` uses it: a stable sort by a
    key of two integers compared lexicographically. The source calls the library
    sort; the model specifies it by a stable insertion sort on sequences. */
module KeySort {

  /** A key `(i32, i32)`. */
  datatype Key = Key(group: int, level: int)

  /** Lexicographic order on keys, as Rust orders tuples. */
  predicate KeyLe(a: Key, b: Key) {
    a.group < b.group || (a.group == b.group && a.level <= b.level)
  }

  ghost predicate SortedByKey<T>(s: seq<T>, key: T -> Key) {
    forall a, b :: 0 <= a < b < |s| ==> KeyLe(key(s[a]), key(s[b]))
  }

  /** The entries of `s` whose key is `k`, in their order in `s`. */
  function WithKey<T>(s: seq<T>, key: T -> Key, k: Key): seq<T> {
    if s == [] then []
    else (if key(s[0]) == k then [s[0]] else []) + WithKey(s[1..], key, k)
  }

  /** Places `x` in front of the first entry whose key is not below its own. */
  function Insert<T>(x: T, s: seq<T>, key: T -> Key): seq<T> {
    if s == [] then [x]
    else if KeyLe(key(x), key(s[0])) then [x] + s
    else [s[0]] + Insert(x, s[1..], key)
  }

  /** The stable sort: each entry is inserted ahead of the (already sorted)
      entries that follow it, so it stays ahead of those with an equal key. */
  function SortByKey<T>(s: seq<T>, key: T -> Key): seq<T> {
    if s == [] then [] else Insert(s[0], SortByKey(s[1..], key), key)
  }

  lemma {:induction false} InsertPermutes<T>(x: T, s: seq<T>, key: T -> Key)
    ensures multiset(Insert(x, s, key)) == multiset(s) + multiset{x}
  {
    if s != [] && !KeyLe(key(x), key(s[0])) {
      InsertPermutes(x, s[1..], key);
      assert s == [s[0]] + s[1..];
    }
  }

  lemma {:induction false} InsertSorted<T>(x: T, s: seq<T>, key: T -> Key)
    requires SortedByKey(s, key)
    ensures SortedByKey(Insert(x, s, key), key)
  {
    if s != [] {
      if KeyLe(key(x), key(s[0])) {
        var r := [x] + s;
        forall a, b | 0 <= a < b < |r| ensures KeyLe(key(r[a]), key(r[b])) {
          if a == 0 {
            assert KeyLe(key(s[0]), key(s[b - 1])) || b == 1;
          }
        }
      } else {
        var t := s[1..];
        InsertSorted(x, t, key);
        InsertPermutes(x, t, key);
        var r := [s[0]] + Insert(x, t, key);
        forall a, b | 0 <= a < b < |r| ensures KeyLe(key(r[a]), key(r[b])) {
          if a == 0 {
            var y := r[b];
            assert y in multiset(Insert(x, t, key));
            if y != x {
              assert y in multiset(t);
              var i :| 0 <= i < |t| && t[i] == y;
              assert s[i + 1] == y;
            }
          }
        }
      }
    }
  }

  lemma {:induction false} InsertWithKey<T>(x: T, s: seq<T>, key: T -> Key, k: Key)
    ensures WithKey(Insert(x, s, key), key, k) == (if key(x) == k then [x] else []) + WithKey(s, key, k)
  {
    if s == [] {
      assert WithKey([x], key, k) == (if key(x) == k then [x] else []) + WithKey([], key, k);
    } else if KeyLe(key(x), key(s[0])) {
      assert ([x] + s)[1..] == s;
    } else {
      InsertWithKey(x, s[1..], key, k);
      assert ([s[0]] + Insert(x, s[1..], key))[1..] == Insert(x, s[1..], key);
      assert key(s[0]) != key(x);
    }
  }

  /** The sort permutes its input, orders it by key, and keeps the entries that
      share a key in their original order (stability). */
  lemma {:induction false} SortByKeyCorrect<T>(s: seq<T>, key: T -> Key)
    ensures multiset(SortByKey(s, key)) == multiset(s)
    ensures SortedByKey(SortByKey(s, key), key)
    ensures forall k :: WithKey(SortByKey(s, key), key, k) == WithKey(s, key, k)
  {
    if s != [] {
      var t := SortByKey(s[1..], key);
      SortByKeyCorrect(s[1..], key);
      InsertPermutes(s[0], t, key);
      InsertSorted(s[0], t, key);
      assert s == [s[0]] + s[1..];
      forall k ensures WithKey(SortByKey(s, key), key, k) == WithKey(s, key, k) {
        InsertWithKey(s[0], t, key, k);
      }
    }
  }

  lemma {:induction false} WithKeyHas<T>(s: seq<T>, key: T -> Key, i: nat)
    requires i < |s|
    ensures WithKey(s, key, key(s[i])) != []
  {
    if i > 0 {
      WithKeyHas(s[1..], key, i - 1);
    }
  }

  /** Two sequences sorted by key that agree on the entries of every key are equal. */
  lemma {:induction false} SortedStableUnique<T>(t: seq<T>, u: seq<T>, key: T -> Key)
    requires SortedByKey(t, key) && SortedByKey(u, key)
    requires forall k :: WithKey(t, key, k) == WithKey(u, key, k)
    ensures t == u
    decreases |t|
  {
    SameEmptiness(t, u, key);
    if t != [] {
      MinimalKeyFirst(t, u, key);
      MinimalKeyFirst(u, t, key);
      assert key(t[0]) == key(u[0]);
      assert WithKey(t, key, key(t[0]))[0] == t[0];
      assert WithKey(u, key, key(u[0]))[0] == u[0];
      forall k ensures WithKey(t[1..], key, k) == WithKey(u[1..], key, k) {
        var h := if key(t[0]) == k then [t[0]] else [];
        assert WithKey(t, key, k) == h + WithKey(t[1..], key, k);
        assert WithKey(u, key, k) == h + WithKey(u[1..], key, k);
        assert WithKey(t[1..], key, k) == (h + WithKey(t[1..], key, k))[|h|..];
        assert WithKey(u[1..], key, k) == (h + WithKey(u[1..], key, k))[|h|..];
      }
      SortedStableUnique(t[1..], u[1..], key);
      assert t == [t[0]] + t[1..] && u == [u[0]] + u[1..];
    }
  }

  lemma SameEmptiness<T>(t: seq<T>, u: seq<T>, key: T -> Key)
    requires forall k :: WithKey(t, key, k) == WithKey(u, key, k)
    ensures t == [] <==> u == []
  {
    if t != [] {
      WithKeyHas(t, key, 0);
    }
    if u != [] {
      WithKeyHas(u, key, 0);
    }
  }

  lemma MinimalKeyFirst<T>(t: seq<T>, u: seq<T>, key: T -> Key)
    requires t != [] && u != [] && SortedByKey(u, key)
    requires forall k :: WithKey(t, key, k) == WithKey(u, key, k)
    ensures KeyLe(key(u[0]), key(t[0]))
  {
    WithKeyHas(t, key, 0);
    assert WithKey(u, key, key(t[0])) != [];
    var j := WithKeyIndex(u, key, key(t[0]));
    assert j == 0 || KeyLe(key(u[0]), key(u[j]));
  }

  lemma {:induction false} WithKeyIndex<T>(s: seq<T>, key: T -> Key, k: Key) returns (j: nat)
    requires WithKey(s, key, k) != []
    ensures j < |s| && key(s[j]) == k
  {
    if key(s[0]) == k {
      j := 0;
    } else {
      var i := WithKeyIndex(s[1..], key, k);
      j := i + 1;
    }
  }

  /** Stable sorting by key has exactly one result: any arrangement that is
      sorted by key and keeps each key's entries in their original order is the
      one the sort produces. */
  lemma SortByKeyIsTheStableSort<T>(s: seq<T>, t: seq<T>, key: T -> Key)
    requires SortedByKey(t, key)
    requires forall k :: WithKey(t, key, k) == WithKey(s, key, k)
    ensures t == SortByKey(s, key)
  {
    SortByKeyCorrect(s, key);
    SortedStableUnique(t, SortByKey(s, key), key);
  }
}
