/** The fixed total order used to sort comparison nodes and the tables to process,
    and the sort itself: an insertion sort that is proved to return an ordered
    permutation of its input. */
module Ordering {

  /** A sort key: a category rank first, then a name. */
  datatype SortKey = SortKey(rank: int, name: string)

  /** Lexicographic order on strings, by character code. */
  predicate StrLt(a: string, b: string)
    decreases |a|
  {
    if |a| == 0 then |b| > 0
    else if |b| == 0 then false
    else if a[0] < b[0] then true
    else a[0] == b[0] && StrLt(a[1..], b[1..])
  }

  lemma {:induction false} StrLtIrreflexive(a: string)
    ensures !StrLt(a, a)
    decreases |a|
  {
    if |a| > 0 { StrLtIrreflexive(a[1..]); }
  }

  lemma {:induction false} StrLtTransitive(a: string, b: string, c: string)
    requires StrLt(a, b) && StrLt(b, c)
    ensures StrLt(a, c)
    decreases |a|
  {
    if |a| > 0 && |b| > 0 && |c| > 0 && a[0] == b[0] && b[0] == c[0] {
      StrLtTransitive(a[1..], b[1..], c[1..]);
    }
  }

  lemma {:induction false} StrLtTotal(a: string, b: string)
    requires a != b
    ensures StrLt(a, b) || StrLt(b, a)
    decreases |a|
  {
    if |a| > 0 && |b| > 0 && a[0] == b[0] {
      assert a == [a[0]] + a[1..] && b == [b[0]] + b[1..];
      StrLtTotal(a[1..], b[1..]);
    }
  }

  predicate KeyLt(k: SortKey, l: SortKey) {
    k.rank < l.rank || (k.rank == l.rank && StrLt(k.name, l.name))
  }

  predicate KeyLe(k: SortKey, l: SortKey) {
    k == l || KeyLt(k, l)
  }

  /** KeyLt is a strict total order. */
  lemma KeyLtStrictTotal(k: SortKey, l: SortKey, m: SortKey)
    ensures !KeyLt(k, k)
    ensures KeyLt(k, l) ==> !KeyLt(l, k)
    ensures KeyLt(k, l) && KeyLt(l, m) ==> KeyLt(k, m)
    ensures k != l ==> KeyLt(k, l) || KeyLt(l, k)
  {
    StrLtIrreflexive(k.name);
    if KeyLt(k, l) && KeyLt(l, k) {
      StrLtTransitive(k.name, l.name, k.name);
    }
    if KeyLt(k, l) && KeyLt(l, m) && k.rank == l.rank == m.rank {
      StrLtTransitive(k.name, l.name, m.name);
    }
    if k != l && k.rank == l.rank {
      StrLtTotal(k.name, l.name);
    }
  }

  ghost predicate Sorted<T>(s: seq<T>, key: T -> SortKey) {
    forall i, j :: 0 <= i < j < |s| ==> KeyLe(key(s[i]), key(s[j]))
  }

  ghost predicate StrictlySorted<T>(s: seq<T>, key: T -> SortKey) {
    forall i, j :: 0 <= i < j < |s| ==> KeyLt(key(s[i]), key(s[j]))
  }

  ghost predicate DistinctKeys<T>(s: seq<T>, key: T -> SortKey) {
    forall i, j :: 0 <= i < j < |s| ==> key(s[i]) != key(s[j])
  }

  /** Inserts x in front of the first element whose key is not smaller. */
  function InsertBy<T>(x: T, s: seq<T>, key: T -> SortKey): (r: seq<T>)
    ensures multiset(r) == multiset(s) + multiset{x}
    ensures |r| == |s| + 1
  {
    if s == [] then [x]
    else if KeyLe(key(x), key(s[0])) then [x] + s
    else
      var r := [s[0]] + InsertBy(x, s[1..], key);
      assert s == [s[0]] + s[1..];
      r
  }

  lemma {:induction false} InsertBySorted<T>(x: T, s: seq<T>, key: T -> SortKey)
    requires Sorted(s, key)
    ensures Sorted(InsertBy(x, s, key), key)
  {
    if s != [] && KeyLe(key(x), key(s[0])) {
      var r := [x] + s;
      forall i, j | 0 <= i < j < |r| ensures KeyLe(key(r[i]), key(r[j])) {
        if i == 0 && j > 1 {
          KeyLtStrictTotal(key(x), key(s[0]), key(r[j]));
        }
      }
    } else if s != [] {
      var t := InsertBy(x, s[1..], key);
      InsertBySorted(x, s[1..], key);
      var r := [s[0]] + t;
      forall i, j | 0 <= i < j < |r| ensures KeyLe(key(r[i]), key(r[j])) {
        if i == 0 {
          // r[j] is either x or an element of s[1..]
          assert r[j] in multiset(t);
          assert r[j] in multiset(s[1..]) + multiset{x};
          if r[j] == x {
            KeyLtStrictTotal(key(x), key(s[0]), key(x));
          } else {
            var k :| 0 <= k < |s[1..]| && s[1..][k] == r[j];
            assert s[k + 1] == r[j];
          }
        } else {
          assert r[i] == t[i - 1] && r[j] == t[j - 1];
        }
      }
    }
  }

  /** Insertion sort by key. */
  function SortBy<T>(s: seq<T>, key: T -> SortKey): (r: seq<T>)
    ensures multiset(r) == multiset(s)
    ensures |r| == |s|
    decreases |s|
  {
    if |s| == 0 then []
    else
      var tail := s[1..];
      var sorted := SortBy(tail, key);
      assert s == [s[0]] + tail;
      InsertBy(s[0], sorted, key)
  }

  lemma {:induction false} SortBySorted<T>(s: seq<T>, key: T -> SortKey)
    ensures Sorted(SortBy(s, key), key)
  {
    if s != [] {
      SortBySorted(s[1..], key);
      InsertBySorted(s[0], SortBy(s[1..], key), key);
    }
  }

  lemma StrictImpliesDistinct<T>(s: seq<T>, key: T -> SortKey)
    requires StrictlySorted(s, key)
    ensures DistinctKeys(s, key)
  {
    forall i, j | 0 <= i < j < |s| ensures key(s[i]) != key(s[j]) {
      KeyLtStrictTotal(key(s[i]), key(s[j]), key(s[j]));
    }
  }

  lemma {:induction false} InsertByStrict<T>(x: T, s: seq<T>, key: T -> SortKey)
    requires StrictlySorted(s, key)
    requires forall y :: y in s ==> key(y) != key(x)
    ensures StrictlySorted(InsertBy(x, s, key), key)
  {
    if s != [] {
      if KeyLe(key(x), key(s[0])) {
        assert key(x) != key(s[0]);
        var r := [x] + s;
        forall i, j | 0 <= i < j < |r| ensures KeyLt(key(r[i]), key(r[j])) {
          if i == 0 && j > 1 {
            KeyLtStrictTotal(key(x), key(s[0]), key(r[j]));
          }
        }
      } else {
        var t := InsertBy(x, s[1..], key);
        forall y | y in s[1..] ensures key(y) != key(x) { }
        InsertByStrict(x, s[1..], key);
        var r := [s[0]] + t;
        forall i, j | 0 <= i < j < |r| ensures KeyLt(key(r[i]), key(r[j])) {
          if i == 0 {
            assert r[j] in multiset(t);
            assert r[j] in multiset(s[1..]) + multiset{x};
            if r[j] == x {
              KeyLtStrictTotal(key(x), key(s[0]), key(x));
            } else {
              var k :| 0 <= k < |s[1..]| && s[1..][k] == r[j];
              assert s[k + 1] == r[j];
            }
          }
        }
      }
    }
  }

  /** The sorted result of a sequence with distinct keys is strictly sorted. */
  lemma {:induction false} SortByStrict<T>(s: seq<T>, key: T -> SortKey)
    requires DistinctKeys(s, key)
    ensures StrictlySorted(SortBy(s, key), key)
  {
    if s != [] {
      assert DistinctKeys(s[1..], key) by {
        forall i, j | 0 <= i < j < |s[1..]| ensures key(s[1..][i]) != key(s[1..][j]) {
          assert s[1..][i] == s[i + 1] && s[1..][j] == s[j + 1];
        }
      }
      SortByStrict(s[1..], key);
      var t := SortBy(s[1..], key);
      forall y | y in t ensures key(y) != key(s[0]) {
        assert y in multiset(s[1..]);
        var k :| 0 <= k < |s[1..]| && s[1..][k] == y;
        assert s[k + 1] == y;
      }
      InsertByStrict(s[0], t, key);
    }
  }

  /** Two strictly sorted sequences over the same set of elements are equal:
      the order is determined by the elements alone. */
  lemma {:induction false} StrictlySortedUnique<T>(s: seq<T>, t: seq<T>, key: T -> SortKey)
    requires StrictlySorted(s, key) && StrictlySorted(t, key)
    requires forall x :: x in s <==> x in t
    ensures s == t
    decreases |s|
  {
    if s != [] { assert s[0] in t; }
    if t != [] { assert t[0] in s; }
    if s != [] && t != [] {
      // the first elements are the least of the common set
      var i :| 0 <= i < |t| && t[i] == s[0];
      var j :| 0 <= j < |s| && s[j] == t[0];
      if i != 0 {
        assert KeyLt(key(t[0]), key(t[i]));
        if j == 0 {
          assert t[0] == s[0];
          KeyLtStrictTotal(key(t[0]), key(t[0]), key(t[0]));
        } else {
          assert KeyLt(key(s[0]), key(s[j]));
          KeyLtStrictTotal(key(s[0]), key(t[0]), key(t[0]));
        }
      }
      assert s[0] == t[0];
      forall x ensures x in s[1..] <==> x in t[1..] {
        if x in s[1..] {
          var a :| 1 <= a < |s| && s[a] == x;
          assert x != s[0] by { StrictImpliesDistinct(s, key); }
          assert x in s;
          var b :| 0 <= b < |t| && t[b] == x;
          assert b != 0;
          assert t[1..][b - 1] == x;
        }
        if x in t[1..] {
          var b :| 1 <= b < |t| && t[b] == x;
          assert x != t[0] by { StrictImpliesDistinct(t, key); }
          assert x in t;
          var a :| 0 <= a < |s| && s[a] == x;
          assert a != 0;
          assert s[1..][a - 1] == x;
        }
      }
      StrictlySortedUnique(s[1..], t[1..], key);
      assert s == [s[0]] + s[1..] && t == [t[0]] + t[1..];
    }
  }
}
