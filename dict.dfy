/** Python's `dict`, which keeps its keys in insertion order, as a sequence
    of key/value entries whose keys are pairwise distinct. Every keyed
    collection of the library (books by title, users by username, loans by
    book id) is one of these. */
module Dict {
  import opened Outcomes

  datatype Entry<K, V> = Entry(key: K, value: V)

  /** `k in d` */
  predicate Has<K(==), V>(d: seq<Entry<K, V>>, k: K)
  {
    exists i | 0 <= i < |d| :: d[i].key == k
  }

  /** The dictionary invariant: no key occurs twice. */
  predicate DistinctKeys<K(==), V>(d: seq<Entry<K, V>>)
  {
    forall i, j | 0 <= i < j < |d| :: d[i].key != d[j].key
  }

  /** `d.values()` in order. */
  function Values<K, V>(d: seq<Entry<K, V>>): seq<V>
  {
    seq(|d|, i requires 0 <= i < |d| => d[i].value)
  }

  /** `d.keys()` as a set. */
  ghost function KeySet<K, V>(d: seq<Entry<K, V>>): set<K>
  {
    set i | 0 <= i < |d| :: d[i].key
  }

  lemma HasTail<K, V>(d: seq<Entry<K, V>>, k: K)
    requires d != []
    ensures Has(d, k) <==> d[0].key == k || Has(d[1..], k)
  {
  }

  /** The position of key `k`: the first entry that carries it. */
  function IndexOf<K(==), V>(d: seq<Entry<K, V>>, k: K): (i: nat)
    requires Has(d, k)
    ensures i < |d| && d[i].key == k
    ensures forall j | 0 <= j < i :: d[j].key != k
  {
    if d[0].key == k then 0
    else
      HasTail(d, k);
      var i := IndexOf(d[1..], k);
      assert forall j | 1 <= j <= i :: d[j] == d[1..][j - 1];
      1 + i
  }

  /** In a dictionary, the position of the key found at `p` is `p`. */
  lemma IndexOfAt<K, V>(d: seq<Entry<K, V>>, p: nat)
    requires DistinctKeys(d) && p < |d|
    ensures Has(d, d[p].key) && IndexOf(d, d[p].key) == p
  {
  }

  /** `d.get(k)`: the value stored under `k`, or None. */
  function Get<K(==), V>(d: seq<Entry<K, V>>, k: K): (r: Option<V>)
    ensures r.None? <==> !Has(d, k)
    ensures r.Some? ==> Entry(k, r.value) in d
  {
    if Has(d, k) then Some(d[IndexOf(d, k)].value) else None
  }

  /** `d[k] = v`: an existing key keeps its position and gets the new value;
      a new key goes to the end. */
  function Put<K(==), V>(d: seq<Entry<K, V>>, k: K, v: V): (r: seq<Entry<K, V>>)
    ensures Entry(k, v) in r
    ensures |r| == (if Has(d, k) then |d| else |d| + 1)
  {
    if Has(d, k) then
      var r := d[IndexOf(d, k) := Entry(k, v)];
      assert r[IndexOf(d, k)] == Entry(k, v);
      r
    else d + [Entry(k, v)]
  }

  /** After `d[k] = v`, `k` maps to `v`, every other key maps to what it did,
      every old key keeps its position, the size grows only for a new key,
      and the keys stay distinct. */
  lemma PutSpec<K(!new), V>(d: seq<Entry<K, V>>, k: K, v: V)
    ensures |Put(d, k, v)| == (if Has(d, k) then |d| else |d| + 1)
    ensures Get(Put(d, k, v), k) == Some(v)
    ensures forall k' | k' != k :: Get(Put(d, k, v), k') == Get(d, k')
    ensures forall i | 0 <= i < |d| :: Put(d, k, v)[i].key == d[i].key
    ensures DistinctKeys(d) ==> DistinctKeys(Put(d, k, v))
  {
  }

  /** `del d[k]` for a key that is present, the identity otherwise: the
      entry at the key's position goes, the others keep their order. */
  function Delete<K(==), V>(d: seq<Entry<K, V>>, k: K): (r: seq<Entry<K, V>>)
    ensures |r| == (if Has(d, k) then |d| - 1 else |d|)
    ensures forall j | 0 <= j < |r| :: r[j] in d
  {
    if Has(d, k) then d[..IndexOf(d, k)] + d[IndexOf(d, k) + 1..] else d
  }

  /** Deleting a present key shifts the entries after it down by one. */
  lemma DeleteShift<K, V>(d: seq<Entry<K, V>>, k: K)
    requires Has(d, k)
    ensures var p := IndexOf(d, k);
            |Delete(d, k)| == |d| - 1
            && forall j | 0 <= j < |d| - 1 :: Delete(d, k)[j] == d[if j < p then j else j + 1]
  {
    var p := IndexOf(d, k);
    var r := d[..p] + d[p + 1..];
    assert Delete(d, k) == r;
    forall j | 0 <= j < |d| - 1 ensures r[j] == d[if j < p then j else j + 1] {
      if j < p {
        assert r[j] == d[..p][j];
      } else {
        assert r[j] == d[p + 1..][j - p];
      }
    }
  }

  /** In a dictionary, `del d[k]` removes `k`, keeps every other key's value
      and every remaining entry, shrinks the size by one for a present key,
      and keeps the keys distinct. */
  lemma DeleteSpec<K(!new), V>(d: seq<Entry<K, V>>, k: K)
    requires DistinctKeys(d)
    ensures !Has(Delete(d, k), k)
    ensures |Delete(d, k)| == (if Has(d, k) then |d| - 1 else |d|)
    ensures forall k' | k' != k :: Get(Delete(d, k), k') == Get(d, k')
    ensures forall j | 0 <= j < |Delete(d, k)| :: Delete(d, k)[j] in d
    ensures DistinctKeys(Delete(d, k))
  {
    if Has(d, k) {
      var p := IndexOf(d, k);
      var r := Delete(d, k);
      DeleteShift(d, k);
      assert DistinctKeys(r) by {
        forall i, j | 0 <= i < j < |r| ensures r[i].key != r[j].key {
          var i' := if i < p then i else i + 1;
          var j' := if j < p then j else j + 1;
          assert r[i] == d[i'] && r[j] == d[j'] && i' < j';
        }
      }
      assert !Has(r, k) by {
        forall j | 0 <= j < |r| ensures r[j].key != k {
          assert r[j] == d[if j < p then j else j + 1];
        }
      }
      forall j | 0 <= j < |r| ensures r[j] in d {
        assert d[if j < p then j else j + 1] == r[j];
      }
      forall k' | k' != k ensures Get(r, k') == Get(d, k') {
        DeleteGet(d, k, k');
      }
    }
  }

  lemma DeleteGet<K, V>(d: seq<Entry<K, V>>, k: K, k': K)
    requires DistinctKeys(d) && Has(d, k) && k' != k
    ensures Get(Delete(d, k), k') == Get(d, k')
  {
    var p := IndexOf(d, k);
    var r := Delete(d, k);
    DeleteShift(d, k);
    if Has(d, k') {
      var i := IndexOf(d, k');
      var j := if i < p then i else i - 1;
      assert r[j] == d[i];
      assert forall m | 0 <= m < j :: r[m].key != k' by {
        forall m | 0 <= m < j ensures r[m].key != k' {
          assert r[m] == d[if m < p then m else m + 1];
        }
      }
      assert IndexOf(r, k') == j;
    } else {
      forall j | 0 <= j < |r| ensures r[j].key != k' {
        assert r[j] == d[if j < p then j else j + 1];
      }
    }
  }

  /** Deleting a key that was just added gives back the dictionary as it
      was: `d[k] = v; del d[k]` with `k` new leaves `d` unchanged. */
  lemma DeleteAfterPut<K, V>(d: seq<Entry<K, V>>, k: K, v: V)
    requires !Has(d, k)
    ensures Delete(Put(d, k, v), k) == d
  {
  }

  /** A dictionary holds as many entries as it has distinct keys. */
  lemma {:induction false} DistinctKeysCardinality<K, V>(d: seq<Entry<K, V>>)
    requires DistinctKeys(d)
    ensures |KeySet(d)| == |d|
  {
    if d != [] {
      assert DistinctKeys(d[1..]);
      DistinctKeysCardinality(d[1..]);
      assert KeySet(d) == {d[0].key} + KeySet(d[1..]) by {
        forall x | x in KeySet(d) ensures x in {d[0].key} + KeySet(d[1..]) {
          var i :| 0 <= i < |d| && d[i].key == x;
          if i > 0 { assert d[1..][i - 1].key == x; }
        }
        forall x | x in KeySet(d[1..]) ensures x in KeySet(d) {
          var i :| 0 <= i < |d[1..]| && d[1..][i].key == x;
          assert d[i + 1].key == x;
        }
      }
      assert d[0].key !in KeySet(d[1..]) by {
        forall i | 0 <= i < |d[1..]| ensures d[1..][i].key != d[0].key {
          assert d[1..][i] == d[i + 1];
        }
      }
    }
  }
}
