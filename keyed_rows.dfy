/** Tables whose rows are looked up by a key: the rows a `.eq(...)` chain
    selects, deleting them, updating the one row with a key, and the
    "at most one row per key" invariant the create-once handlers keep. */
module KeyedRows {
  import opened Common

  /** The rows whose key is `k`, in table order. */
  function Matching<T(!new), K(==)>(rows: seq<T>, key: T -> K, k: K): (m: seq<T>)
    ensures forall x :: x in m <==> x in rows && key(x) == k
    ensures |m| <= |rows|
  {
    if rows == [] then []
    else
      var init := rows[..|rows| - 1];
      var last := rows[|rows| - 1];
      assert rows == init + [last];
      var rest := Matching(init, key, k);
      if key(last) == k then rest + [last] else rest
  }

  /** The rows whose key is not `k`: a `.delete()` with that key. */
  function Without<T(!new), K(==)>(rows: seq<T>, key: T -> K, k: K): (r: seq<T>)
    ensures forall x :: x in r <==> x in rows && key(x) != k
    ensures |r| <= |rows|
  {
    if rows == [] then []
    else
      var init := rows[..|rows| - 1];
      var last := rows[|rows| - 1];
      assert rows == init + [last];
      var rest := Without(init, key, k);
      if key(last) == k then rest else rest + [last]
  }

  predicate OnePerKey<T(!new), K(==)>(rows: seq<T>, key: T -> K) {
    forall i, j :: 0 <= i < j < |rows| ==> key(rows[i]) != key(rows[j])
  }

  /** The position of the first row with key `k`. */
  function IndexOfKey<T(!new), K(==)>(rows: seq<T>, key: T -> K, k: K): (r: Option<nat>)
    ensures r.Some? ==> r.value < |rows| && key(rows[r.value]) == k
    ensures r.Some? ==> forall i :: 0 <= i < r.value ==> key(rows[i]) != k
    ensures r.None? ==> forall i :: 0 <= i < |rows| ==> key(rows[i]) != k
  {
    if rows == [] then None
    else if key(rows[0]) == k then Some(0)
    else
      match IndexOfKey(rows[1..], key, k)
      case None => None
      case Some(i) => Some(i + 1)
  }

  lemma {:induction false} NoMatch<T(!new), K>(rows: seq<T>, key: T -> K, k: K)
    requires forall i :: 0 <= i < |rows| ==> key(rows[i]) != k
    ensures Matching(rows, key, k) == []
  {
    if rows != [] {
      NoMatch(rows[..|rows| - 1], key, k);
    }
  }

  /** Appending a row extends exactly the matches of its own key. */
  lemma MatchingAppend<T(!new), K>(rows: seq<T>, key: T -> K, k: K, x: T)
    ensures Matching(rows + [x], key, k) == Matching(rows, key, k) + (if key(x) == k then [x] else [])
  {
    assert (rows + [x])[..|rows|] == rows;
  }

  lemma {:induction false} OnePerKeyPrefix<T(!new), K>(rows: seq<T>, key: T -> K, n: nat)
    requires OnePerKey(rows, key) && n <= |rows|
    ensures OnePerKey(rows[..n], key)
  {
    forall i, j | 0 <= i < j < n
      ensures key(rows[..n][i]) != key(rows[..n][j])
    {
      assert rows[..n][i] == rows[i] && rows[..n][j] == rows[j];
    }
  }

  /** With one row per key, a key matches at most one row. */
  lemma {:induction false} AtMostOne<T(!new), K>(rows: seq<T>, key: T -> K, k: K)
    requires OnePerKey(rows, key)
    ensures |Matching(rows, key, k)| <= 1
  {
    if rows != [] {
      var init := rows[..|rows| - 1];
      var last := rows[|rows| - 1];
      OnePerKeyPrefix(rows, key, |rows| - 1);
      AtMostOne(init, key, k);
      if key(last) == k {
        forall i | 0 <= i < |init| ensures key(init[i]) != k {
          assert init[i] == rows[i];
        }
        NoMatch(init, key, k);
      }
    }
  }

  /** A key without matches is the key of no row. */
  lemma NoMatchNoKey<T(!new), K>(rows: seq<T>, key: T -> K, k: K)
    requires Matching(rows, key, k) == []
    ensures forall i :: 0 <= i < |rows| ==> key(rows[i]) != k
  {
    forall i | 0 <= i < |rows| ensures key(rows[i]) != k {
      assert rows[i] in rows;
      assert rows[i] !in Matching(rows, key, k);
    }
  }

  lemma OnePerKeyAppend<T(!new), K>(rows: seq<T>, key: T -> K, x: T)
    requires OnePerKey(rows, key)
    requires forall i :: 0 <= i < |rows| ==> key(rows[i]) != key(x)
    ensures OnePerKey(rows + [x], key)
  {
    var extended := rows + [x];
    forall i, j | 0 <= i < j < |extended| ensures key(extended[i]) != key(extended[j]) {
      assert extended[i] == rows[i];
      if j < |rows| {
        assert extended[j] == rows[j];
      } else {
        assert extended[j] == x;
      }
    }
  }

  /** Appending a row whose key has no match keeps one row per key, and the
      new row is then the only match of its key. */
  lemma AppendFresh<T(!new), K>(rows: seq<T>, key: T -> K, x: T)
    requires OnePerKey(rows, key)
    requires Matching(rows, key, key(x)) == []
    ensures OnePerKey(rows + [x], key)
    ensures Matching(rows + [x], key, key(x)) == [x]
  {
    NoMatchNoKey(rows, key, key(x));
    OnePerKeyAppend(rows, key, x);
    MatchingAppend(rows, key, key(x), x);
  }

  /** Replacing a row by one with the same key keeps one row per key. */
  lemma ReplaceKeepsOnePerKey<T(!new), K>(rows: seq<T>, key: T -> K, i: nat, x: T)
    requires OnePerKey(rows, key)
    requires i < |rows| && key(x) == key(rows[i])
    ensures OnePerKey(rows[i := x], key)
  {
  }

  /** With one row per key, a replaced row becomes the only match of its key. */
  lemma {:induction false} ReplaceIsOnlyMatch<T(!new), K>(rows: seq<T>, key: T -> K, i: nat, x: T)
    requires OnePerKey(rows, key)
    requires i < |rows| && key(x) == key(rows[i])
    ensures Matching(rows[i := x], key, key(x)) == [x]
  {
    var n := |rows|;
    var updated := rows[i := x];
    var init := updated[..n - 1];
    var last := updated[n - 1];
    assert updated == init + [last];
    if i == n - 1 {
      forall j | 0 <= j < |init| ensures key(init[j]) != key(x) {
        assert init[j] == rows[j];
      }
      NoMatch(init, key, key(x));
      MatchingAppend(init, key, key(x), last);
    } else {
      assert init == rows[..n - 1][i := x];
      assert key(last) != key(x);
      OnePerKeyPrefix(rows, key, n - 1);
      ReplaceIsOnlyMatch(rows[..n - 1], key, i, x);
      MatchingAppend(init, key, key(x), last);
    }
  }

  /** The sole match of a key sits at the first index of that key. */
  lemma SoleMatchIndex<T(!new), K>(rows: seq<T>, key: T -> K, k: K)
    requires |Matching(rows, key, k)| == 1
    ensures IndexOfKey(rows, key, k).Some?
    ensures rows[IndexOfKey(rows, key, k).value] == Matching(rows, key, k)[0]
  {
    var m := Matching(rows, key, k);
    assert m[0] in m;
    var j :| 0 <= j < |rows| && rows[j] == m[0];
    assert key(rows[j]) == k;
    var idx := IndexOfKey(rows, key, k);
    assert idx.Some?;
    var x := rows[idx.value];
    assert x in rows;
    assert m == [m[0]];
    assert x in m;
  }

  /** Deleting a key removes all its matches and no others. */
  lemma {:induction false} MatchingWithout<T(!new), K>(rows: seq<T>, key: T -> K, k: K, k2: K)
    ensures Matching(Without(rows, key, k), key, k2) == if k == k2 then [] else Matching(rows, key, k2)
  {
    if rows != [] {
      var init := rows[..|rows| - 1];
      var last := rows[|rows| - 1];
      MatchingWithout(init, key, k, k2);
      if key(last) != k {
        MatchingAppend(Without(init, key, k), key, k2, last);
      }
    }
  }

  /** A filter keeps one row per key. */
  lemma {:induction false} FilterKeepsOnePerKey<T(!new), K>(rows: seq<T>, p: T -> bool, key: T -> K)
    requires OnePerKey(rows, key)
    ensures OnePerKey(Filter(rows, p), key)
  {
    if rows != [] {
      var rest := rows[1..];
      OnePerKeyTail(rows, key);
      FilterKeepsOnePerKey(rest, p, key);
      var f := Filter(rest, p);
      if p(rows[0]) {
        var g := [rows[0]] + f;
        forall i, j | 0 <= i < j < |g| ensures key(g[i]) != key(g[j]) {
          if i == 0 {
            assert g[j] == f[j - 1] && f[j - 1] in rest;
            var m :| 0 <= m < |rest| && rest[m] == f[j - 1];
            assert rows[m + 1] == rest[m];
          } else {
            assert g[i] == f[i - 1] && g[j] == f[j - 1];
          }
        }
      }
    }
  }

  lemma OnePerKeyTail<T(!new), K>(rows: seq<T>, key: T -> K)
    requires OnePerKey(rows, key) && rows != []
    ensures OnePerKey(rows[1..], key)
  {
    forall i, j | 0 <= i < j < |rows| - 1 ensures key(rows[1..][i]) != key(rows[1..][j]) {
      assert rows[1..][i] == rows[i + 1] && rows[1..][j] == rows[j + 1];
    }
  }

  /** The keys of the rows. */
  function KeySet<T(!new), K(==)>(rows: seq<T>, key: T -> K): (ks: set<K>)
    ensures |ks| <= |rows|
    ensures forall x :: x in rows ==> key(x) in ks
    ensures forall k :: k in ks ==> exists x :: x in rows && key(x) == k
  {
    if rows == [] then {}
    else
      var init := rows[..|rows| - 1];
      var last := rows[|rows| - 1];
      assert rows == init + [last];
      KeySet(init, key) + {key(last)}
  }

  /** With one row per key there are as many keys as rows. */
  lemma {:induction false} OnePerKeyCount<T(!new), K>(rows: seq<T>, key: T -> K)
    requires OnePerKey(rows, key)
    ensures |KeySet(rows, key)| == |rows|
  {
    if rows != [] {
      var n := |rows| - 1;
      var init := rows[..n];
      OnePerKeyPrefix(rows, key, n);
      OnePerKeyCount(init, key);
      forall x | x in init ensures key(x) != key(rows[n]) {
        var m :| 0 <= m < n && init[m] == x;
        assert rows[m] == x;
      }
      KeySetSnoc(rows, key);
      KeySetAddsNew(KeySet(init, key), key(rows[n]), init, key);
    }
  }

  lemma KeySetSnoc<T(!new), K>(rows: seq<T>, key: T -> K)
    requires rows != []
    ensures KeySet(rows, key) == KeySet(rows[..|rows| - 1], key) + {key(rows[|rows| - 1])}
  {
  }

  /** A key no row of `init` has is new to their key set. */
  lemma KeySetAddsNew<T(!new), K>(ks: set<K>, k: K, init: seq<T>, key: T -> K)
    requires ks == KeySet(init, key)
    requires forall x :: x in init ==> key(x) != k
    ensures |ks + {k}| == |ks| + 1
  {
    assert k !in ks;
  }

  /** Rows with distinct keys, each key also the key of some row of
      `others`, are no more numerous than `others`. */
  lemma CountWithinKeys<T(!new), U(!new), K>(rows: seq<T>, key: T -> K, others: seq<U>, otherKey: U -> K)
    requires OnePerKey(rows, key)
    requires forall x :: x in rows ==> key(x) in KeySet(others, otherKey)
    ensures |rows| <= |others|
  {
    OnePerKeyCount(rows, key);
    assert KeySet(rows, key) <= KeySet(others, otherKey);
    SubsetCard(KeySet(rows, key), KeySet(others, otherKey));
  }

  lemma SubsetCard<K>(a: set<K>, b: set<K>)
    requires a <= b
    ensures |a| <= |b|
  {
    assert b == a + (b - a);
  }
}
