/** Ordering of rows by a composite key: the `order(column, {ascending})`
    clauses the handlers pass to the store, and the comparator sorts they run
    themselves. A key is a sequence of numeric or text parts compared
    left to right. */
module Ordering {
  import opened Common
  import opened Text

  datatype KeyPart = Num(n: int) | Txt(s: string)

  type Key = seq<KeyPart>

  predicate PartLess(a: KeyPart, b: KeyPart) {
    match (a, b)
    case (Num(x), Num(y)) => x < y
    case (Txt(x), Txt(y)) => StrLess(x, y)
    case (Num(_), Txt(_)) => true
    case (Txt(_), Num(_)) => false
  }

  /** Lexicographic order of keys; a proper prefix comes first. */
  predicate KeyLess(a: Key, b: Key)
    decreases |a|
  {
    if |a| == 0 then |b| > 0
    else |b| > 0 && (PartLess(a[0], b[0]) || (a[0] == b[0] && KeyLess(a[1..], b[1..])))
  }

  lemma PartLessOrder(a: KeyPart, b: KeyPart, c: KeyPart)
    ensures !PartLess(a, a)
    ensures a == b || PartLess(a, b) || PartLess(b, a)
    ensures PartLess(a, b) && PartLess(b, c) ==> PartLess(a, c)
  {
    if a.Txt? {
      StrLessIrreflexive(a.s);
    }
    if a.Txt? && b.Txt? {
      StrLessTrichotomy(a.s, b.s);
    }
    if a.Txt? && b.Txt? && c.Txt? && StrLess(a.s, b.s) && StrLess(b.s, c.s) {
      StrLessTransitive(a.s, b.s, c.s);
    }
  }

  lemma {:induction false} KeyLessIrreflexive(a: Key)
    ensures !KeyLess(a, a)
    decreases |a|
  {
    if |a| > 0 {
      PartLessOrder(a[0], a[0], a[0]);
      KeyLessIrreflexive(a[1..]);
    }
  }

  lemma {:induction false} KeyLessTotal(a: Key, b: Key)
    ensures a == b || KeyLess(a, b) || KeyLess(b, a)
    decreases |a|
  {
    if |a| > 0 && |b| > 0 {
      PartLessOrder(a[0], b[0], b[0]);
      KeyLessTotal(a[1..], b[1..]);
      if a[0] == b[0] && a[1..] == b[1..] {
        assert a == [a[0]] + a[1..] && b == [b[0]] + b[1..];
      }
    }
  }

  lemma {:induction false} KeyLessTransitive(a: Key, b: Key, c: Key)
    requires KeyLess(a, b) && KeyLess(b, c)
    ensures KeyLess(a, c)
    decreases |a|
  {
    if |a| > 0 {
      PartLessOrder(a[0], b[0], c[0]);
      PartLessOrder(b[0], a[0], c[0]);
      PartLessOrder(b[0], c[0], a[0]);
      if a[0] == b[0] && b[0] == c[0] {
        KeyLessTransitive(a[1..], b[1..], c[1..]);
      }
    }
  }

  /** `a` strictly precedes `b` in the requested direction. */
  predicate Before(a: Key, b: Key, descending: bool) {
    if descending then KeyLess(b, a) else KeyLess(a, b)
  }

  /** Two non-strict steps up never lead strictly down. */
  lemma KeyLeqChain(x: Key, y: Key, z: Key)
    requires x == y || KeyLess(x, y)
    requires y == z || KeyLess(y, z)
    ensures !KeyLess(z, x)
  {
    KeyLessIrreflexive(x);
    if KeyLess(z, x) {
      if x == y && KeyLess(y, z) { KeyLessTransitive(x, z, x); }
      if KeyLess(x, y) && y == z { KeyLessTransitive(x, z, x); }
      if KeyLess(x, y) && KeyLess(y, z) { KeyLessTransitive(x, y, z); KeyLessTransitive(x, z, x); }
    }
  }

  /** Not preceding is transitive: what lets a sorted prefix stay sorted. */
  lemma NotBeforeTransitive(a: Key, b: Key, c: Key, descending: bool)
    requires !Before(a, b, descending) && !Before(b, c, descending)
    ensures !Before(a, c, descending)
  {
    KeyLessTotal(a, b);
    KeyLessTotal(b, c);
    if descending {
      KeyLeqChain(a, b, c);
    } else {
      KeyLeqChain(c, b, a);
    }
  }

  lemma BeforeAsymmetric(a: Key, b: Key, descending: bool)
    requires Before(a, b, descending)
    ensures !Before(b, a, descending)
  {
    if Before(b, a, descending) {
      if descending { KeyLessTransitive(b, a, b); KeyLessIrreflexive(b); }
      else { KeyLessTransitive(a, b, a); KeyLessIrreflexive(a); }
    }
  }

  /** No element is strictly before one that comes earlier. */
  predicate SortedBy<T>(s: seq<T>, key: T -> Key, descending: bool) {
    forall i, j :: 0 <= i < j < |s| ==> !Before(key(s[j]), key(s[i]), descending)
  }

  /** Insert `x` ahead of the first element it does not follow. */
  function Insert<T>(x: T, s: seq<T>, key: T -> Key, descending: bool): (r: seq<T>)
    ensures multiset(r) == multiset(s) + multiset{x}
  {
    if s == [] then [x]
    else if !Before(key(s[0]), key(x), descending) then [x] + s
    else
      assert s == [s[0]] + s[1..];
      [s[0]] + Insert(x, s[1..], key, descending)
  }

  lemma {:induction false} InsertSorted<T>(x: T, s: seq<T>, key: T -> Key, descending: bool)
    requires SortedBy(s, key, descending)
    ensures SortedBy(Insert(x, s, key, descending), key, descending)
  {
    if s != [] {
      var r := Insert(x, s, key, descending);
      if !Before(key(s[0]), key(x), descending) {
        forall j | 1 <= j < |r| ensures !Before(key(r[j]), key(r[0]), descending) {
          if j > 1 {
            NotBeforeTransitive(key(s[j - 1]), key(s[0]), key(x), descending);
          }
        }
      } else {
        var rest := Insert(x, s[1..], key, descending);
        InsertSorted(x, s[1..], key, descending);
        BeforeAsymmetric(key(s[0]), key(x), descending);
        forall j | 0 <= j < |rest| ensures !Before(key(rest[j]), key(s[0]), descending) {
          assert rest[j] in multiset(rest);
          if rest[j] != x {
            assert rest[j] in multiset(s[1..]);
            var k :| 0 <= k < |s[1..]| && s[1..][k] == rest[j];
            assert s[k + 1] == rest[j];
          }
        }
      }
    }
  }

  /** The rows in key order; rows with equal keys keep their input order. */
  function SortBy<T>(s: seq<T>, key: T -> Key, descending: bool): (r: seq<T>)
    ensures multiset(r) == multiset(s)
    ensures SortedBy(r, key, descending)
  {
    if s == [] then []
    else
      assert s == [s[0]] + s[1..];
      var rest := SortBy(s[1..], key, descending);
      InsertSorted(s[0], rest, key, descending);
      Insert(s[0], rest, key, descending)
  }

  /** Filtering a sorted sequence keeps it sorted. */
  lemma {:induction false} FilterKeepsSorted<T(!new)>(s: seq<T>, p: T -> bool, key: T -> Key, descending: bool)
    requires SortedBy(s, key, descending)
    ensures SortedBy(Filter(s, p), key, descending)
  {
    if s != [] {
      var rest := s[1..];
      assert SortedBy(rest, key, descending) by {
        forall i, j | 0 <= i < j < |rest| ensures !Before(key(rest[j]), key(rest[i]), descending) {
          assert rest[i] == s[i + 1] && rest[j] == s[j + 1];
        }
      }
      FilterKeepsSorted(rest, p, key, descending);
      var f := Filter(rest, p);
      if p(s[0]) {
        var g := [s[0]] + f;
        forall i, j | 0 <= i < j < |g| ensures !Before(key(g[j]), key(g[i]), descending) {
          assert g[j] == f[j - 1] && f[j - 1] in rest;
          if i == 0 {
            var m :| 0 <= m < |rest| && rest[m] == f[j - 1];
            assert s[m + 1] == rest[m];
          } else {
            assert g[i] == f[i - 1];
          }
        }
      }
    }
  }
}
