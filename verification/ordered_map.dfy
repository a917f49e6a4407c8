/** Python's insertion-ordered `dict`, as a sequence of key/value pairs with
    distinct keys. Assigning to an existing key keeps its position;
    assigning a new key appends it; deleting removes only that key. */
module OrderedMap {
  import opened Common

  type Pairs<K, V> = seq<(K, V)>

  function Keys<K, V>(d: Pairs<K, V>): (r: seq<K>)
    ensures |r| == |d|
    ensures forall i :: 0 <= i < |d| ==> r[i] == d[i].0
  {
    if |d| == 0 then [] else [d[0].0] + Keys(d[1..])
  }

  function Values<K, V>(d: Pairs<K, V>): (r: seq<V>)
    ensures |r| == |d|
    ensures forall i :: 0 <= i < |d| ==> r[i] == d[i].1
  {
    if |d| == 0 then [] else [d[0].1] + Values(d[1..])
  }

  /** A well-formed dictionary: no key twice. */
  predicate UniqueKeys<K(==), V>(d: Pairs<K, V>) {
    NoDup(Keys(d))
  }

  /** `d.get(k)`. */
  function Get<K(==), V>(d: Pairs<K, V>, k: K): Option<V>
  {
    if |d| == 0 then None
    else if d[0].0 == k then Some(d[0].1)
    else Get(d[1..], k)
  }

  /** `get` finds a key exactly when the dictionary holds it, and then
      finds the value paired with it. */
  lemma {:induction false} GetKeys<K, V>(d: Pairs<K, V>, k: K)
    ensures Get(d, k).Some? <==> k in Keys(d)
    ensures Get(d, k).Some? ==> (k, Get(d, k).value) in d
  {
    if |d| > 0 {
      assert Keys(d) == [d[0].0] + Keys(d[1..]);
      if d[0].0 != k {
        GetKeys(d[1..], k);
      }
    }
  }

  /** `d[k] = v`. */
  function Put<K(==), V>(d: Pairs<K, V>, k: K, v: V): (r: Pairs<K, V>)
    ensures Get(r, k) == Some(v)
  {
    if |d| == 0 then [(k, v)]
    else if d[0].0 == k then [(k, v)] + d[1..]
    else
      var rest := Put(d[1..], k, v);
      assert ([d[0]] + rest)[1..] == rest;
      [d[0]] + rest
  }

  /** Assigning an existing key keeps the keys in place; a new key is
      appended. */
  lemma {:induction false} PutKeys<K, V>(d: Pairs<K, V>, k: K, v: V)
    ensures k in Keys(d) ==> Keys(Put(d, k, v)) == Keys(d)
    ensures k !in Keys(d) ==> Keys(Put(d, k, v)) == Keys(d) + [k]
  {
    if |d| > 0 {
      assert Keys(d) == [d[0].0] + Keys(d[1..]);
      if d[0].0 == k {
        assert Keys(Put(d, k, v)) == [k] + Keys(d[1..]);
      } else {
        var rest := Put(d[1..], k, v);
        PutKeys(d[1..], k, v);
        assert Keys([d[0]] + rest) == [d[0].0] + Keys(rest);
      }
    }
  }

  /** Assigning one key leaves every other key's value as it was. */
  lemma {:induction false} PutOther<K, V>(d: Pairs<K, V>, k: K, v: V, other: K)
    requires other != k
    ensures Get(Put(d, k, v), other) == Get(d, other)
  {
    if |d| > 0 && d[0].0 != k {
      PutOther(d[1..], k, v, other);
    }
  }

  /** Every entry after an assignment is the assigned pair or an entry
      that was there before. */
  lemma {:induction false} PutEntries<K, V>(d: Pairs<K, V>, k: K, v: V)
    ensures forall i :: 0 <= i < |Put(d, k, v)| ==> Put(d, k, v)[i] == (k, v) || Put(d, k, v)[i] in d
  {
    if |d| > 0 && d[0].0 != k {
      PutEntries(d[1..], k, v);
      var rest := Put(d[1..], k, v);
      assert Put(d, k, v) == [d[0]] + rest;
      forall i | 1 <= i < |Put(d, k, v)|
        ensures Put(d, k, v)[i] == (k, v) || Put(d, k, v)[i] in d
      {
        assert Put(d, k, v)[i] == rest[i - 1];
        if rest[i - 1] in d[1..] {
          var j :| 0 <= j < |d[1..]| && d[1..][j] == rest[i - 1];
          assert d[j + 1] == rest[i - 1];
        }
      }
    } else if |d| > 0 {
      assert forall i :: 1 <= i < |Put(d, k, v)| ==> Put(d, k, v)[i] == d[i];
    }
  }

  /** Assignment keeps the keys distinct. */
  lemma PutUnique<K, V>(d: Pairs<K, V>, k: K, v: V)
    requires UniqueKeys(d)
    ensures UniqueKeys(Put(d, k, v))
  {
    PutKeys(d, k, v);
  }

  /** `del d[k]` when present; nothing when absent. */
  function Remove<K(==), V>(d: Pairs<K, V>, k: K): (r: Pairs<K, V>)
    ensures Get(r, k) == None
    ensures k !in Keys(d) ==> r == d
    ensures forall i :: 0 <= i < |r| ==> r[i].0 != k && r[i].0 in Keys(d)
  {
    if |d| == 0 then []
    else if d[0].0 == k then Remove(d[1..], k)
    else
      var rest := Remove(d[1..], k);
      assert Keys(d) == [d[0].0] + Keys(d[1..]);
      assert Keys([d[0]] + rest) == [d[0].0] + Keys(rest);
      [d[0]] + rest
  }

  /** Deleting one key leaves every other key's value as it was. */
  lemma {:induction false} RemoveOther<K, V>(d: Pairs<K, V>, k: K, other: K)
    requires other != k
    ensures Get(Remove(d, k), other) == Get(d, other)
  {
    if |d| > 0 {
      RemoveOther(d[1..], k, other);
    }
  }

  /** Deletion keeps the keys distinct. */
  lemma {:induction false} RemoveUnique<K, V>(d: Pairs<K, V>, k: K)
    requires UniqueKeys(d)
    ensures UniqueKeys(Remove(d, k))
  {
    if |d| > 0 {
      UniqueTail(d);
      RemoveUnique(d[1..], k);
      if d[0].0 != k {
        ConsUnique(d[0], Remove(d[1..], k));
      }
    }
  }

  /** The tail of a well-formed dictionary is well formed and does not
      hold the head's key. */
  lemma UniqueTail<K, V>(d: Pairs<K, V>)
    requires UniqueKeys(d) && |d| > 0
    ensures UniqueKeys(d[1..]) && d[0].0 !in Keys(d[1..])
  {
    var t := d[1..];
    forall i, j | 0 <= i < j < |t| ensures Keys(t)[i] != Keys(t)[j] {
      assert Keys(d)[i + 1] == t[i].0 && Keys(d)[j + 1] == t[j].0;
    }
    forall i | 0 <= i < |t| ensures Keys(t)[i] != d[0].0 {
      assert Keys(d)[i + 1] == t[i].0 && Keys(d)[0] == d[0].0;
    }
  }

  /** Putting a pair in front of a well-formed dictionary that lacks its
      key keeps it well formed. */
  lemma ConsUnique<K, V>(p: (K, V), rest: Pairs<K, V>)
    requires UniqueKeys(rest) && p.0 !in Keys(rest)
    ensures UniqueKeys([p] + rest)
  {
    var r := [p] + rest;
    forall i, j | 0 <= i < j < |r| ensures Keys(r)[i] != Keys(r)[j] {
      assert r[j] == rest[j - 1];
      assert Keys(rest)[j - 1] == rest[j - 1].0;
      if i > 0 {
        assert r[i] == rest[i - 1];
        assert Keys(rest)[i - 1] == rest[i - 1].0;
      }
    }
  }

  /** The entry at position `i` is what `get` finds for its key when no
      earlier entry has that key. */
  lemma {:induction false} GetAt<K, V>(d: Pairs<K, V>, i: nat)
    requires i < |d|
    requires forall j :: 0 <= j < i ==> d[j].0 != d[i].0
    ensures Get(d, d[i].0) == Some(d[i].1)
    decreases i
  {
    if i > 0 {
      assert d[1..][i - 1] == d[i];
      GetAt(d[1..], i - 1);
    }
  }

  /** Keys in strictly increasing order are distinct. */
  lemma IncreasingUnique<V>(d: Pairs<int, V>)
    requires forall i :: 0 <= i < |d| - 1 ==> d[i].0 < d[i + 1].0
    ensures UniqueKeys(d)
  {
    forall i, j | 0 <= i < j < |d| ensures d[i].0 < d[j].0 {
      IncreasingFrom(d, i, j);
    }
  }

  lemma {:induction false} IncreasingFrom<V>(d: Pairs<int, V>, i: nat, j: nat)
    requires forall k :: 0 <= k < |d| - 1 ==> d[k].0 < d[k + 1].0
    requires i < j < |d|
    ensures d[i].0 < d[j].0
    decreases j - i
  {
    if j > i + 1 {
      IncreasingFrom(d, i, j - 1);
    }
  }

  /** The pairs assigned onto `d` in turn, first pair first. */
  function PutAll<K(==), V>(d: Pairs<K, V>, pairs: seq<(K, V)>): (r: Pairs<K, V>)
    ensures forall k :: k in Keys(d) ==> k in Keys(r)
    decreases |pairs|
  {
    if |pairs| == 0 then d
    else
      PutKeys(d, pairs[0].0, pairs[0].1);
      PutAll(Put(d, pairs[0].0, pairs[0].1), pairs[1..])
  }

  /** A key no pair carries keeps its value. */
  lemma {:induction false} PutAllOther<K, V>(d: Pairs<K, V>, pairs: seq<(K, V)>, k: K)
    requires forall i :: 0 <= i < |pairs| ==> pairs[i].0 != k
    ensures Get(PutAll(d, pairs), k) == Get(d, k)
    decreases |pairs|
  {
    if |pairs| > 0 {
      var rest := pairs[1..];
      forall i | 0 <= i < |rest|
        ensures rest[i].0 != k
      {
        assert rest[i] == pairs[i + 1];
      }
      PutOther(d, pairs[0].0, pairs[0].1, k);
      PutAllOther(Put(d, pairs[0].0, pairs[0].1), rest, k);
    }
  }

  /** The last pair carrying a key decides its value. */
  lemma {:induction false} PutAllLastWins<K, V>(d: Pairs<K, V>, pairs: seq<(K, V)>, j: nat)
    requires j < |pairs|
    requires forall i :: j < i < |pairs| ==> pairs[i].0 != pairs[j].0
    ensures Get(PutAll(d, pairs), pairs[j].0) == Some(pairs[j].1)
    decreases |pairs|
  {
    var k := pairs[j].0;
    var rest := pairs[1..];
    var next := Put(d, pairs[0].0, pairs[0].1);
    if j == 0 {
      forall i | 0 <= i < |rest|
        ensures rest[i].0 != k
      {
        assert rest[i] == pairs[i + 1];
      }
      PutAllOther(next, rest, k);
    } else {
      assert rest[j - 1] == pairs[j];
      forall i | j - 1 < i < |rest|
        ensures rest[i].0 != k
      {
        assert rest[i] == pairs[i + 1];
      }
      PutAllLastWins(next, rest, j - 1);
    }
  }

  /** `dict(pairs)`: the pairs assigned in turn, so a repeated key keeps
      the position of its first pair and the value of its last. */
  function FromPairs<K(==), V>(pairs: seq<(K, V)>): Pairs<K, V>
    decreases |pairs|
  {
    if |pairs| == 0 then []
    else
      var n := |pairs| - 1;
      Put(FromPairs(pairs[..n]), pairs[n].0, pairs[n].1)
  }

  /** The value under a key is that of the last pair with that key. */
  lemma {:induction false} FromPairsLastWins<K, V>(pairs: seq<(K, V)>, k: K, j: nat)
    requires j < |pairs| && pairs[j].0 == k
    requires forall i :: j < i < |pairs| ==> pairs[i].0 != k
    ensures Get(FromPairs(pairs), k) == Some(pairs[j].1)
    decreases |pairs|
  {
    var n := |pairs| - 1;
    if j < n {
      var init := pairs[..n];
      assert init[j] == pairs[j];
      forall i | j < i < |init|
        ensures init[i].0 != k
      {
        assert init[i] == pairs[i];
      }
      FromPairsLastWins(init, k, j);
      PutOther(FromPairs(init), pairs[n].0, pairs[n].1, k);
    }
  }

  /** A key no pair carries is absent. */
  lemma {:induction false} FromPairsAbsent<K, V>(pairs: seq<(K, V)>, k: K)
    requires forall i :: 0 <= i < |pairs| ==> pairs[i].0 != k
    ensures Get(FromPairs(pairs), k) == None
    decreases |pairs|
  {
    if |pairs| > 0 {
      var n := |pairs| - 1;
      var init := pairs[..n];
      forall i | 0 <= i < |init|
        ensures init[i].0 != k
      {
        assert init[i] == pairs[i];
      }
      FromPairsAbsent(init, k);
      PutOther(FromPairs(init), pairs[n].0, pairs[n].1, k);
    }
  }

  /** Dropping the last entry keeps the keys distinct, and that entry's key
      occurs nowhere before it. */
  lemma UniqueKeysInit<K, V>(d: Pairs<K, V>)
    requires UniqueKeys(d) && |d| > 0
    ensures UniqueKeys(d[..|d| - 1])
    ensures forall k :: 0 <= k < |d| - 1 ==> d[k].0 != d[|d| - 1].0
  {
    var init := d[..|d| - 1];
    assert forall i :: 0 <= i < |init| ==> Keys(init)[i] == Keys(d)[i];
    assert forall k :: 0 <= k < |d| - 1 ==> Keys(d)[k] != Keys(d)[|d| - 1];
  }
}
