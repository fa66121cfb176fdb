/** `df.groupby(keys).apply(stat)`: one statistic per key value present in
    the table, computed over the rows that carry that key. */
module Grouping {
  import opened Frames

  /** Row predicate `key(row) == k`. */
  function HasKey<R, K(==)>(key: R -> K, k: K): R -> bool
  {
    r => key(r) == k
  }

  /** The rows of group `k`, in table order. */
  function Group<R(!new), K(==)>(rows: seq<R>, key: R -> K, k: K): seq<R>
  {
    Select(rows, HasKey(key, k))
  }

  /** The key values that occur in the table. */
  function KeysOf<R, K(==)>(rows: seq<R>, key: R -> K): set<K>
  {
    set i | 0 <= i < |rows| :: key(rows[i])
  }

  /** One statistic per group; groupby never yields an empty group. */
  function GroupBy<R(!new), K(==), V>(rows: seq<R>, key: R -> K, stat: seq<R> -> V): (m: map<K, V>)
    ensures m.Keys == KeysOf(rows, key)
    ensures forall k :: k in m ==> Group(rows, key, k) != [] && m[k] == stat(Group(rows, key, k))
  {
    forall k | k in KeysOf(rows, key) ensures Group(rows, key, k) != [] {
      GroupsNonEmpty(rows, key, k);
    }
    map k | k in KeysOf(rows, key) :: stat(Group(rows, key, k))
  }

  /** A key value occurs in the table exactly when its group is non-empty. */
  lemma GroupsNonEmpty<R(!new), K>(rows: seq<R>, key: R -> K, k: K)
    ensures k in KeysOf(rows, key) <==> Group(rows, key, k) != []
  {
    if k in KeysOf(rows, key) {
      var i :| 0 <= i < |rows| && key(rows[i]) == k;
      assert rows[i] in Group(rows, key, k);
    }
    if Group(rows, key, k) != [] {
      var r := Group(rows, key, k)[0];
      assert r in Group(rows, key, k);
      var i :| 0 <= i < |rows| && rows[i] == r;
      assert key(rows[i]) in KeysOf(rows, key);
    }
  }

  /** The groups partition the table: every row lies in the group of its own
      key, which is one of the keys produced, and in no other group. */
  lemma GroupPartition<R(!new), K>(rows: seq<R>, key: R -> K, r: R)
    requires r in rows
    ensures key(r) in KeysOf(rows, key)
    ensures forall k :: r in Group(rows, key, k) <==> k == key(r)
  {
    var i :| 0 <= i < |rows| && rows[i] == r;
    assert key(rows[i]) in KeysOf(rows, key);
  }
}
