/** The grouping the report loops perform: rows are bucketed by a key, each bucket sums a
    weight, and the buckets are listed in the order their keys first appear (the order
    `Object.values` gives for keys that are not array indices). */
module Grouping {
  /** The weight of a row that is only being counted. */
  function One<T>(x: T): int
  {
    1
  }

  /** The distinct keys of `rows`, in order of first appearance. */
  function KeysInOrder<T, K(==)>(rows: seq<T>, key: T -> K): (ks: seq<K>)
    ensures Distinct(ks)
    decreases |rows|
  {
    if rows == [] then []
    else
      var ks := KeysInOrder(rows[..|rows| - 1], key);
      var k := key(rows[|rows| - 1]);
      if k in ks then ks else ks + [k]
  }

  /** The keys are exactly the keys of the rows. */
  lemma {:induction false} KeysMembers<T, K>(rows: seq<T>, key: T -> K)
    ensures forall i :: 0 <= i < |rows| ==> key(rows[i]) in KeysInOrder(rows, key)
    ensures forall k :: k in KeysInOrder(rows, key) ==> exists i :: 0 <= i < |rows| && key(rows[i]) == k
  {
    if rows != [] {
      var init := rows[..|rows| - 1];
      KeysMembers(init, key);
      assert forall i :: 0 <= i < |init| ==> rows[i] == init[i];
    }
  }

  predicate Distinct<K(==)>(ks: seq<K>)
  {
    forall i, j :: 0 <= i < j < |ks| ==> ks[i] != ks[j]
  }

  /** The sum of `w` over the rows whose key is `k`. */
  function SumWhere<T, K(==)>(rows: seq<T>, key: T -> K, k: K, w: T -> int): int
    decreases |rows|
  {
    if rows == [] then 0
    else
      var last := rows[|rows| - 1];
      SumWhere(rows[..|rows| - 1], key, k, w) + if key(last) == k then w(last) else 0
  }

  /** The sum of `w` over all rows. */
  function Total<T>(rows: seq<T>, w: T -> int): int
    decreases |rows|
  {
    if rows == [] then 0 else Total(rows[..|rows| - 1], w) + w(rows[|rows| - 1])
  }

  /** The bucket sums for the keys `ks`, added up. */
  function SumByKeys<T, K(==)>(rows: seq<T>, key: T -> K, ks: seq<K>, w: T -> int): int
    decreases |ks|
  {
    if ks == [] then 0
    else SumByKeys(rows, key, ks[..|ks| - 1], w) + SumWhere(rows, key, ks[|ks| - 1], w)
  }

  lemma {:induction false} TotalOfOnes<T>(rows: seq<T>)
    ensures Total(rows, One) == |rows|
  {
    if rows != [] {
      TotalOfOnes(rows[..|rows| - 1]);
    }
  }

  lemma {:induction false} CountNonNegative<T, K>(rows: seq<T>, key: T -> K)
    ensures forall k :: 0 <= SumWhere(rows, key, k, One) <= |rows|
  {
    if rows != [] {
      CountNonNegative(rows[..|rows| - 1], key);
    }
  }

  lemma SumWhereSnoc<T, K>(rows: seq<T>, x: T, key: T -> K, w: T -> int)
    ensures forall k :: SumWhere(rows + [x], key, k, w) == SumWhere(rows, key, k, w) + if key(x) == k then w(x) else 0
  {
    assert (rows + [x])[..|rows|] == rows;
  }

  /** One more row adds its key at the end if it is new. */
  lemma KeysSnoc<T, K>(rows: seq<T>, x: T, key: T -> K)
    ensures KeysInOrder(rows + [x], key)
         == if key(x) in KeysInOrder(rows, key) then KeysInOrder(rows, key) else KeysInOrder(rows, key) + [key(x)]
  {
    assert (rows + [x])[..|rows|] == rows;
  }

  /** A key no row has sums to nothing. */
  lemma {:induction false} AbsentKeySumsZero<T, K>(rows: seq<T>, key: T -> K, k: K, w: T -> int)
    requires k !in KeysInOrder(rows, key)
    ensures SumWhere(rows, key, k, w) == 0
  {
    if rows != [] {
      var init := rows[..|rows| - 1];
      assert forall i :: 0 <= i < |init| ==> init[i] == rows[i];
      AbsentKeySumsZero(init, key, k, w);
    }
  }

  lemma SumByKeysAppend<T, K>(rows: seq<T>, key: T -> K, ks: seq<K>, k: K, w: T -> int)
    ensures SumByKeys(rows, key, ks + [k], w) == SumByKeys(rows, key, ks, w) + SumWhere(rows, key, k, w)
  {
    assert (ks + [k])[..|ks|] == ks;
  }

  /** One more row adds its weight to the bucket sums of distinct keys once if its key is among
      them, and not at all otherwise. */
  lemma {:induction false} SumByKeysSnoc<T, K>(rows: seq<T>, x: T, key: T -> K, ks: seq<K>, w: T -> int)
    requires Distinct(ks)
    ensures SumByKeys(rows + [x], key, ks, w) == SumByKeys(rows, key, ks, w) + if key(x) in ks then w(x) else 0
  {
    if ks != [] {
      var init, last := ks[..|ks| - 1], ks[|ks| - 1];
      SumByKeysSnoc(rows, x, key, init, w);
      SumWhereSnoc(rows, x, key, w);
      assert key(x) in ks <==> key(x) in init || key(x) == last;
      assert key(x) == last ==> key(x) !in init;
    }
  }

  /** Bucketing loses and duplicates nothing: over distinct keys that include every row's
      key, the bucket sums add up to the sum over all rows. */
  lemma {:induction false} BucketsPartition<T, K>(rows: seq<T>, key: T -> K, ks: seq<K>, w: T -> int)
    requires Distinct(ks)
    requires forall i :: 0 <= i < |rows| ==> key(rows[i]) in ks
    ensures SumByKeys(rows, key, ks, w) == Total(rows, w)
  {
    if rows == [] {
      ZeroBuckets(key, ks, w);
    } else {
      var init, last := rows[..|rows| - 1], rows[|rows| - 1];
      assert forall i :: 0 <= i < |init| ==> init[i] == rows[i];
      BucketsPartition(init, key, ks, w);
      SumByKeysSnoc(init, last, key, ks, w);
      assert init + [last] == rows;
    }
  }

  lemma {:induction false} ZeroBuckets<T, K>(key: T -> K, ks: seq<K>, w: T -> int)
    ensures SumByKeys([], key, ks, w) == 0
  {
    if ks != [] {
      ZeroBuckets(key, ks[..|ks| - 1], w);
    }
  }

  /** The groups in first-appearance order account for every row exactly once. */
  lemma GroupsPartition<T, K>(rows: seq<T>, key: T -> K, w: T -> int)
    ensures SumByKeys(rows, key, KeysInOrder(rows, key), w) == Total(rows, w)
    ensures SumByKeys(rows, key, KeysInOrder(rows, key), One) == |rows|
  {
    KeysMembers(rows, key);
    BucketsPartition(rows, key, KeysInOrder(rows, key), w);
    BucketsPartition(rows, key, KeysInOrder(rows, key), One);
    TotalOfOnes(rows);
  }

  /** Each element of `ks` comes strictly before the next ones under `le`. */
  predicate Ascending<K(==)>(ks: seq<K>, le: (K, K) -> bool)
  {
    forall i, j :: 0 <= i < j < |ks| ==> le(ks[i], ks[j]) && ks[i] != ks[j]
  }

  /** Keys appear in the order of the rows: when the rows are sorted by an order on their
      keys, the keys come out in that order. */
  lemma {:induction false} KeysFollowRows<T, K>(rows: seq<T>, key: T -> K, le: (K, K) -> bool)
    requires forall i, j :: 0 <= i < j < |rows| ==> le(key(rows[i]), key(rows[j]))
    ensures Ascending(KeysInOrder(rows, key), le)
  {
    if rows != [] {
      var init, last := rows[..|rows| - 1], rows[|rows| - 1];
      assert forall i :: 0 <= i < |init| ==> init[i] == rows[i];
      KeysFollowRows(init, key, le);
      KeysMembers(init, key);
      var ks := KeysInOrder(init, key);
      var ks' := KeysInOrder(rows, key);
      if key(last) !in ks {
        assert ks' == ks + [key(last)];
        forall i, j | 0 <= i < j < |ks'|
          ensures le(ks'[i], ks'[j]) && ks'[i] != ks'[j]
        {
          assert ks'[i] == ks[i];
          if j == |ks| {
            assert ks[i] in ks;
            var r :| 0 <= r < |init| && key(init[r]) == ks[i];
            assert le(key(rows[r]), key(rows[|rows| - 1]));
          } else {
            assert ks'[j] == ks[j];
          }
        }
      } else {
        assert ks' == ks;
      }
    }
  }
}
