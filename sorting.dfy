/** Python's `sorted(...)` as the program uses it: a stable sort whose key is
    a pair of strings compared lexicographically, each string compared by
    code points (Python's `<` on `str` and on tuples). */
module Sorting {

  /** Python's `a < b` on `str`. */
  predicate StrLt(a: string, b: string)
  {
    if a == [] then b != []
    else if b == [] then false
    else if a[0] != b[0] then a[0] < b[0]
    else StrLt(a[1..], b[1..])
  }

  lemma {:induction false} StrLtIrreflexive(a: string)
    ensures !StrLt(a, a)
  {
    if a != [] {
      StrLtIrreflexive(a[1..]);
    }
  }

  lemma {:induction false} StrLtTransitive(a: string, b: string, c: string)
    requires StrLt(a, b) && StrLt(b, c)
    ensures StrLt(a, c)
  {
    if a != [] && b != [] && c != [] && a[0] == b[0] && b[0] == c[0] {
      StrLtTransitive(a[1..], b[1..], c[1..]);
    }
  }

  lemma {:induction false} StrLtTotal(a: string, b: string)
    ensures StrLt(a, b) || a == b || StrLt(b, a)
  {
    if a != [] && b != [] && a[0] == b[0] {
      StrLtTotal(a[1..], b[1..]);
      if a[1..] == b[1..] {
        assert a == [a[0]] + a[1..] && b == [b[0]] + b[1..];
      }
    }
  }

  type Key = (string, string)

  /** Python's `<` on a pair of strings. */
  predicate KeyLt(x: Key, y: Key)
  {
    StrLt(x.0, y.0) || (x.0 == y.0 && StrLt(x.1, y.1))
  }

  lemma KeyLtIrreflexive(x: Key)
    ensures !KeyLt(x, x)
  {
    StrLtIrreflexive(x.0);
    StrLtIrreflexive(x.1);
  }

  /** "Not less than" is transitive: the key order is a total preorder. */
  lemma KeyLeTransitive(a: Key, b: Key, c: Key)
    requires !KeyLt(b, a) && !KeyLt(c, b)
    ensures !KeyLt(c, a)
  {
    StrLtTotal(a.0, b.0);
    StrLtTotal(a.1, b.1);
    if KeyLt(c, a) {
      if StrLt(c.0, a.0) {
        if StrLt(a.0, b.0) { StrLtTransitive(c.0, a.0, b.0); }
      } else {
        if StrLt(a.0, b.0) { StrLtTransitive(c.0, a.0, b.0); }
        else if a.0 == b.0 && StrLt(a.1, b.1) { StrLtTransitive(c.1, a.1, b.1); }
      }
    }
  }

  ghost predicate SortedBy<T>(s: seq<T>, key: T -> Key)
  {
    forall i, j :: 0 <= i < j < |s| ==> !KeyLt(key(s[j]), key(s[i]))
  }

  /** The elements of `s` whose key is `k`, in their order in `s`. */
  function WithKey<T>(s: seq<T>, key: T -> Key, k: Key): seq<T>
  {
    if s == [] then []
    else (if key(s[0]) == k then [s[0]] else []) + WithKey(s[1..], key, k)
  }

  /** Places `x` before the first element whose key is not less than its own. */
  function Insert<T>(x: T, s: seq<T>, key: T -> Key): seq<T>
  {
    if s == [] then [x]
    else if KeyLt(key(s[0]), key(x)) then [s[0]] + Insert(x, s[1..], key)
    else [x] + s
  }

  /** `sorted(s, key=key)` */
  function SortBy<T>(s: seq<T>, key: T -> Key): seq<T>
  {
    if s == [] then [] else Insert(s[0], SortBy(s[1..], key), key)
  }

  lemma {:induction false} InsertPermutes<T>(x: T, s: seq<T>, key: T -> Key)
    ensures multiset(Insert(x, s, key)) == multiset([x] + s)
  {
    if s != [] && KeyLt(key(s[0]), key(x)) {
      InsertPermutes(x, s[1..], key);
      assert s == [s[0]] + s[1..];
    }
  }

  lemma {:induction false} SortByPermutes<T>(s: seq<T>, key: T -> Key)
    ensures multiset(SortBy(s, key)) == multiset(s)
  {
    if s != [] {
      SortByPermutes(s[1..], key);
      InsertPermutes(s[0], SortBy(s[1..], key), key);
      assert s == [s[0]] + s[1..];
    }
  }

  lemma {:induction false} WithKeyAppend<T>(a: seq<T>, b: seq<T>, key: T -> Key, k: Key)
    ensures WithKey(a + b, key, k) == WithKey(a, key, k) + WithKey(b, key, k)
  {
    if a != [] {
      assert (a + b)[1..] == a[1..] + b && (a + b)[0] == a[0];
      WithKeyAppend(a[1..], b, key, k);
      var h := if key(a[0]) == k then [a[0]] else [];
      assert WithKey(a + b, key, k) == h + WithKey(a[1..] + b, key, k);
      assert WithKey(a, key, k) == h + WithKey(a[1..], key, k);
    } else {
      assert a + b == b;
    }
  }

  lemma {:induction false} InsertSorted<T>(x: T, s: seq<T>, key: T -> Key)
    requires SortedBy(s, key)
    ensures SortedBy(Insert(x, s, key), key)
  {
    var r := Insert(x, s, key);
    if s == [] {
    } else if KeyLt(key(s[0]), key(x)) {
      InsertSorted(x, s[1..], key);
      var t := Insert(x, s[1..], key);
      InsertPermutes(x, s[1..], key);
      forall j | 0 <= j < |t| ensures !KeyLt(key(t[j]), key(s[0])) {
        assert t[j] in multiset([x] + s[1..]);
        if t[j] == x {
          KeyLtIrreflexive(key(x));
          StrLtTotal(key(x).0, key(s[0]).0);
          if StrLt(key(x).0, key(s[0]).0) && StrLt(key(s[0]).0, key(x).0) {
            StrLtTransitive(key(x).0, key(s[0]).0, key(x).0);
            StrLtIrreflexive(key(x).0);
          }
          if key(x).0 == key(s[0]).0 && StrLt(key(x).1, key(s[0]).1) && StrLt(key(s[0]).1, key(x).1) {
            StrLtTransitive(key(x).1, key(s[0]).1, key(x).1);
            StrLtIrreflexive(key(x).1);
          }
        } else {
          assert t[j] in s[1..];
        }
      }
    } else {
      forall i, j | 0 <= i < j < |r| ensures !KeyLt(key(r[j]), key(r[i])) {
        if i == 0 {
          if j == 1 { KeyLtIrreflexive(key(s[0])); }
          KeyLeTransitive(key(x), key(s[0]), key(s[j - 1]));
        }
      }
    }
  }

  lemma WithKeySingle<T>(y: T, key: T -> Key, k: Key)
    ensures WithKey([y], key, k) == if key(y) == k then [y] else []
  {
    assert [y][1..] == [];
  }

  /** Two elements with different keys never both pass a key filter. */
  lemma WithKeySwap<T>(x: T, y: T, key: T -> Key, k: Key)
    requires key(x) != key(y)
    ensures WithKey([y], key, k) + WithKey([x], key, k) == WithKey([x], key, k) + WithKey([y], key, k)
  {
    WithKeySingle(x, key, k);
    WithKeySingle(y, key, k);
  }

  /** Inserting keeps the relative order of equal-key elements, `x` first. */
  lemma {:induction false} InsertStable<T>(x: T, s: seq<T>, key: T -> Key, k: Key)
    ensures WithKey(Insert(x, s, key), key, k) == WithKey([x] + s, key, k)
  {
    if s != [] && KeyLt(key(s[0]), key(x)) {
      var y, t := s[0], s[1..];
      assert s == [y] + t;
      KeyLtIrreflexive(key(x));
      WithKeySwap(x, y, key, k);
      InsertStable(x, t, key, k);
      var wx, wy, wt := WithKey([x], key, k), WithKey([y], key, k), WithKey(t, key, k);
      WithKeyAppend([y], Insert(x, t, key), key, k);
      WithKeyAppend([x], t, key, k);
      WithKeyAppend([y], t, key, k);
      WithKeyAppend([x], s, key, k);
      assert WithKey(Insert(x, s, key), key, k) == wy + (wx + wt);
      assert wy + (wx + wt) == wx + (wy + wt);
    }
  }

  lemma {:induction false} SortBySorted<T>(s: seq<T>, key: T -> Key)
    ensures SortedBy(SortBy(s, key), key)
  {
    if s != [] {
      SortBySorted(s[1..], key);
      InsertSorted(s[0], SortBy(s[1..], key), key);
    }
  }

  lemma {:induction false} SortByStable<T>(s: seq<T>, key: T -> Key, k: Key)
    ensures WithKey(SortBy(s, key), key, k) == WithKey(s, key, k)
  {
    if s != [] {
      SortByStable(s[1..], key, k);
      InsertStable(s[0], SortBy(s[1..], key), key, k);
      WithKeyAppend([s[0]], SortBy(s[1..], key), key, k);
      WithKeyAppend([s[0]], s[1..], key, k);
      assert s == [s[0]] + s[1..];
    }
  }

  /** `sorted` orders by key, permutes, and is stable. */
  lemma SortByCorrect<T>(s: seq<T>, key: T -> Key)
    ensures SortedBy(SortBy(s, key), key)
    ensures multiset(SortBy(s, key)) == multiset(s)
    ensures forall k :: WithKey(SortBy(s, key), key, k) == WithKey(s, key, k)
  {
    SortBySorted(s, key);
    SortByPermutes(s, key);
    forall k ensures WithKey(SortBy(s, key), key, k) == WithKey(s, key, k) {
      SortByStable(s, key, k);
    }
  }
}
