/** Sorting of query results.

    Both the database's `.sort({field: 1 | -1})` and JavaScript's
    `Array.prototype.sort` (stable since ES2019) are modelled by one stable
    insertion sort on a key: the result is a permutation of the input, ordered
    by the key, and elements with equal keys keep their input order.
 */
module Sorting {
  import opened Text

  /** A sort key. As in the database's comparison order across types, null
      (which a missing field also counts as) sorts first, then numbers, then
      strings. Dates, ObjectIds and booleans are sorted as numbers: no field
      mixes them with another type. */
  datatype Key = Null | Num(n: int) | Str(s: string)

  /** The position of a key's type in the comparison order. */
  function TypeRank(k: Key): nat {
    match k
    case Null => 0
    case Num(_) => 1
    case Str(_) => 2
  }

  predicate KeyLe(a: Key, b: Key) {
    if a.Num? && b.Num? then a.n <= b.n
    else if a.Str? && b.Str? then StrLe(a.s, b.s)
    else TypeRank(a) <= TypeRank(b)
  }

  lemma KeyLeReflexive(a: Key)
    ensures KeyLe(a, a)
  {
    if a.Str? {
      StrLeTotal(a.s, a.s);
    }
  }

  lemma KeyLeTotal(a: Key, b: Key)
    ensures KeyLe(a, b) || KeyLe(b, a)
  {
    if a.Str? && b.Str? {
      StrLeTotal(a.s, b.s);
    }
  }

  lemma KeyLeTransitive(a: Key, b: Key, c: Key)
    requires KeyLe(a, b) && KeyLe(b, c)
    ensures KeyLe(a, c)
  {
    if a.Str? && b.Str? && c.Str? {
      StrLeTransitive(a.s, b.s, c.s);
    }
  }

  lemma KeyLeAntisymmetric(a: Key, b: Key)
    requires KeyLe(a, b) && KeyLe(b, a)
    ensures a == b
  {
    if a.Str? && b.Str? {
      StrLeAntisymmetric(a.s, b.s);
    }
  }

  /** `a` may come before `b` in a sort on `key`, ascending or (`desc`) descending. */
  predicate Precedes<T>(key: T -> Key, desc: bool, a: T, b: T) {
    if desc then KeyLe(key(b), key(a)) else KeyLe(key(a), key(b))
  }

  lemma PrecedesTotal<T>(key: T -> Key, desc: bool, a: T, b: T)
    ensures Precedes(key, desc, a, b) || Precedes(key, desc, b, a)
  {
    KeyLeTotal(key(a), key(b));
  }

  lemma PrecedesTransitive<T>(key: T -> Key, desc: bool, a: T, b: T, c: T)
    requires Precedes(key, desc, a, b) && Precedes(key, desc, b, c)
    ensures Precedes(key, desc, a, c)
  {
    if desc {
      KeyLeTransitive(key(c), key(b), key(a));
    } else {
      KeyLeTransitive(key(a), key(b), key(c));
    }
  }

  /** Every element may come before every later one. */
  ghost predicate SortedBy<T>(s: seq<T>, key: T -> Key, desc: bool) {
    forall i, j :: 0 <= i < j < |s| ==> Precedes(key, desc, s[i], s[j])
  }

  /** Putting in front of a sorted sequence an element that may precede all
      of it keeps the sequence sorted. */
  lemma ConsSorted<T>(x: T, s: seq<T>, key: T -> Key, desc: bool)
    requires SortedBy(s, key, desc)
    requires forall j :: 0 <= j < |s| ==> Precedes(key, desc, x, s[j])
    ensures SortedBy([x] + s, key, desc)
  {
    var r := [x] + s;
    forall i, j | 0 <= i < j < |r| ensures Precedes(key, desc, r[i], r[j]) {
      assert r[j] == s[j - 1];
      if i > 0 {
        assert r[i] == s[i - 1];
      }
    }
  }

  /** An element that may precede the head of a sorted sequence may precede
      all of it. */
  lemma PrecedesSorted<T>(x: T, s: seq<T>, key: T -> Key, desc: bool)
    requires SortedBy(s, key, desc)
    requires s != [] && Precedes(key, desc, x, s[0])
    ensures forall j :: 0 <= j < |s| ==> Precedes(key, desc, x, s[j])
  {
    forall j | 0 < j < |s| ensures Precedes(key, desc, x, s[j]) {
      PrecedesTransitive(key, desc, x, s[0], s[j]);
    }
  }

  /** The head of a sorted sequence may precede every element of the rest
      with `x` inserted, when `x` does not precede the head. */
  lemma HeadPrecedesInserted<T>(h: T, x: T, t: seq<T>, rest: seq<T>, key: T -> Key, desc: bool)
    requires SortedBy([h] + t, key, desc)
    requires !Precedes(key, desc, x, h)
    requires multiset(rest) == multiset(t) + multiset{x}
    ensures forall j :: 0 <= j < |rest| ==> Precedes(key, desc, h, rest[j])
  {
    forall j | 0 <= j < |rest| ensures Precedes(key, desc, h, rest[j]) {
      var y := rest[j];
      assert y in multiset(rest);
      if y == x {
        PrecedesTotal(key, desc, x, h);
      } else {
        assert y in multiset(t);
        assert y in t;
        var i :| 0 <= i < |t| && t[i] == y;
        var ht := [h] + t;
        assert ht[0] == h && ht[i + 1] == y;
        assert Precedes(key, desc, ht[0], ht[i + 1]);
      }
    }
  }

  /** Inserts `x` before the first element it may precede, that is, before
      every element with an equal key. */
  function Insert<T>(x: T, s: seq<T>, key: T -> Key, desc: bool): (r: seq<T>)
    requires SortedBy(s, key, desc)
    ensures multiset(r) == multiset(s) + multiset{x}
    ensures SortedBy(r, key, desc)
  {
    if s == [] then
      [x]
    else if Precedes(key, desc, x, s[0]) then
      PrecedesSorted(x, s, key, desc);
      ConsSorted(x, s, key, desc);
      [x] + s
    else
      assert s == [s[0]] + s[1..];
      var rest := Insert(x, s[1..], key, desc);
      HeadPrecedesInserted(s[0], x, s[1..], rest, key, desc);
      ConsSorted(s[0], rest, key, desc);
      [s[0]] + rest
  }

  /** The stable sort of `s` on `key`. */
  function SortBy<T>(s: seq<T>, key: T -> Key, desc: bool): (r: seq<T>)
    ensures multiset(r) == multiset(s)
    ensures |r| == |s|
    ensures SortedBy(r, key, desc)
  {
    if s == [] then []
    else
      assert s == [s[0]] + s[1..];
      Insert(s[0], SortBy(s[1..], key, desc), key, desc)
  }

  /** The elements of `s` whose key is `k`, in their order in `s`. */
  function WithKey<T>(s: seq<T>, key: T -> Key, k: Key): (r: seq<T>)
    ensures |r| <= |s|
  {
    if s == [] then [] else (if key(s[0]) == k then [s[0]] else []) + WithKey(s[1..], key, k)
  }

  lemma WithKeyCons<T>(x: T, s: seq<T>, key: T -> Key, k: Key)
    ensures WithKey([x] + s, key, k) == (if key(x) == k then [x] else []) + WithKey(s, key, k)
  {
    assert ([x] + s)[1..] == s;
  }

  lemma {:induction false} InsertWithKey<T>(x: T, s: seq<T>, key: T -> Key, desc: bool, k: Key)
    requires SortedBy(s, key, desc)
    ensures WithKey(Insert(x, s, key, desc), key, k)
         == (if key(x) == k then [x] else []) + WithKey(s, key, k)
  {
    if s == [] {
      assert Insert(x, s, key, desc) == [x] + s;
      WithKeyCons(x, s, key, k);
    } else if Precedes(key, desc, x, s[0]) {
      assert Insert(x, s, key, desc) == [x] + s;
      WithKeyCons(x, s, key, k);
    } else {
      var rest := Insert(x, s[1..], key, desc);
      assert Insert(x, s, key, desc) == [s[0]] + rest;
      InsertWithKey(x, s[1..], key, desc, k);
      KeyLeReflexive(key(x));
      assert key(x) != key(s[0]);
      ConsPast(s[0], x, rest, s[1..], key, k);
      assert s == [s[0]] + s[1..];
    }
  }

  /** Putting `a` in front of both sides keeps `x`, whose key differs from
      `a`'s, in front of the other elements with its key. */
  lemma ConsPast<T>(a: T, x: T, rest: seq<T>, t: seq<T>, key: T -> Key, k: Key)
    requires key(x) != key(a)
    requires WithKey(rest, key, k) == (if key(x) == k then [x] else []) + WithKey(t, key, k)
    ensures WithKey([a] + rest, key, k) == (if key(x) == k then [x] else []) + WithKey([a] + t, key, k)
  {
    WithKeyCons(a, rest, key, k);
    WithKeyCons(a, t, key, k);
  }

  /** When every element has key `k`, selecting key `k` keeps them all. */
  lemma {:induction false} WithKeyOfConstant<T>(s: seq<T>, key: T -> Key, k: Key)
    requires forall i :: 0 <= i < |s| ==> key(s[i]) == k
    ensures WithKey(s, key, k) == s
  {
    if s != [] {
      WithKeyOfConstant(s[1..], key, k);
    }
  }

  /** The sort is stable: for every key, the elements with that key appear in
      the result in the same order as in the input. */
  lemma {:induction false} SortStable<T>(s: seq<T>, key: T -> Key, desc: bool, k: Key)
    ensures WithKey(SortBy(s, key, desc), key, k) == WithKey(s, key, k)
  {
    if s != [] {
      SortStable(s[1..], key, desc, k);
      InsertWithKey(s[0], SortBy(s[1..], key, desc), key, desc, k);
    }
  }

  /** Taking a prefix keeps, for every key, a prefix of the elements with that key. */
  lemma {:induction false} WithKeyOfPrefix<T>(s: seq<T>, n: nat, key: T -> Key, k: Key)
    requires n <= |s|
    ensures WithKey(s[..n], key, k) <= WithKey(s, key, k)
  {
    if n > 0 {
      assert s[..n][1..] == s[1..][..n - 1];
      WithKeyOfPrefix(s[1..], n - 1, key, k);
    }
  }

  /** A prefix of a sorted sequence is sorted. */
  lemma SortedPrefix<T>(s: seq<T>, n: nat, key: T -> Key, desc: bool)
    requires n <= |s|
    requires SortedBy(s, key, desc)
    ensures SortedBy(s[..n], key, desc)
  {
  }
}
