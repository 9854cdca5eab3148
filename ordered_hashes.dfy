/** Ruby's Hash: an insertion-ordered association list with distinct keys.
    `h[k] = v` replaces the value of an existing key where it stands and
    appends a new key at the end; `h[k]` of a missing key gives a default. */
module OrderedHashes {

  predicate UniqueKeys<K(==), V>(h: seq<(K, V)>)
  {
    forall i, j | 0 <= i < j < |h| :: h[i].0 != h[j].0
  }

  type Hash<K(==), V> = h: seq<(K, V)> | UniqueKeys(h) witness []

  /** `Hash#keys`, in insertion order. */
  function Keys<K, V>(h: seq<(K, V)>): (ks: seq<K>)
    ensures |ks| == |h| && forall i | 0 <= i < |h| :: ks[i] == h[i].0
  {
    seq(|h|, i requires 0 <= i < |h| => h[i].0)
  }

  /** Where key k stands. */
  function IndexOf<K(==), V>(h: seq<(K, V)>, k: K): (i: nat)
    requires k in Keys(h)
    ensures i < |h| && h[i].0 == k
    ensures forall j | 0 <= j < i :: h[j].0 != k
  {
    if h[0].0 == k then 0
    else
      assert k in Keys(h[1..]) by {
        var j :| 0 <= j < |h| && Keys(h)[j] == k;
        assert Keys(h[1..])[j - 1] == k;
      }
      1 + IndexOf(h[1..], k)
  }

  /** `h[k]`, with `absent` for a missing key (Ruby's default is nil). */
  function Get<K(==), V>(h: seq<(K, V)>, k: K, absent: V): V
  {
    if k in Keys(h) then h[IndexOf(h, k)].1 else absent
  }

  /** `h[k] = v`. */
  function Store<K(==), V>(h: Hash<K, V>, k: K, v: V): (r: Hash<K, V>)
    ensures Keys(r) == if k in Keys(h) then Keys(h) else Keys(h) + [k]
  {
    if k in Keys(h) then h[IndexOf(h, k) := (k, v)] else h + [(k, v)]
  }

  /** Every entry of a hash is what reading its key gives. */
  lemma GetEntry<K, V>(h: Hash<K, V>, i: nat, absent: V)
    requires i < |h|
    ensures Get(h, h[i].0, absent) == h[i].1
  {
    assert Keys(h)[i] == h[i].0;
  }

  /** A key that is not in the hash reads as the default. */
  lemma GetMissing<K, V>(h: Hash<K, V>, k: K, absent: V)
    requires forall i | 0 <= i < |h| :: h[i].0 != k
    ensures Get(h, k, absent) == absent
  {
  }

  /** Reading after writing: the written key reads the written value and
      every other key reads what it read before. */
  lemma GetStore<K, V>(h: Hash<K, V>, k: K, v: V, j: K, absent: V)
    ensures Get(Store(h, k, v), j, absent) == if j == k then v else Get(h, j, absent)
  {
    var r := Store(h, k, v);
    if j == k {
      GetEntry(r, IndexOf(r, k), absent);
    } else if j in Keys(h) {
      var i := IndexOf(h, j);
      assert r[i] == h[i];
      GetEntry(r, i, absent);
    } else {
      assert j !in Keys(r);
    }
  }

  /** Writing an existing key replaces its value where it stands: the length,
      the order of keys and every other entry stay as they were. */
  lemma StoreExisting<K, V>(h: Hash<K, V>, k: K, v: V)
    requires k in Keys(h)
    ensures |Store(h, k, v)| == |h|
    ensures Store(h, k, v)[IndexOf(h, k)] == (k, v)
    ensures forall i | 0 <= i < |h| && h[i].0 != k :: Store(h, k, v)[i] == h[i]
  {
  }

  /** Writing a new key appends it at the end. */
  lemma StoreNew<K, V>(h: Hash<K, V>, k: K, v: V)
    requires k !in Keys(h)
    ensures Store(h, k, v) == h + [(k, v)]
  {
  }

  /** Building a hash entry by entry with `h[k] = v`: writing the next entry's
      key, which the prefix does not hold yet, appends that entry. */
  lemma StorePrefix<K, V>(h: Hash<K, V>, i: nat)
    requires i < |h|
    ensures UniqueKeys(h[..i]) && UniqueKeys(h[..i + 1])
    ensures Store(h[..i], h[i].0, h[i].1) == h[..i + 1]
  {
    var p: Hash<K, V> := h[..i];
    assert h[i].0 !in Keys(p) by {
      forall j | 0 <= j < i
        ensures Keys(p)[j] != h[i].0
      {
      }
    }
    assert h[..i + 1] == p + [h[i]];
  }

  /** Past the first entry, positions shift by one. */
  lemma IndexOfTail<K, V>(h: Hash<K, V>, k: K)
    requires h != [] && k in Keys(h[1..])
    ensures k in Keys(h) && k != h[0].0 && IndexOf(h, k) == 1 + IndexOf(h[1..], k)
  {
    var j :| 0 <= j < |h| - 1 && Keys(h[1..])[j] == k;
    assert Keys(h)[j + 1] == k;
  }

  /** Past the first entry, a hash reads as its tail does. */
  lemma GetTail<K, V>(h: Hash<K, V>, k: K, absent: V)
    requires h != [] && k != h[0].0
    ensures k in Keys(h) <==> k in Keys(h[1..])
    ensures Get(h, k, absent) == Get(h[1..], k, absent)
  {
    if k in Keys(h) {
      var j :| 0 <= j < |h| && Keys(h)[j] == k;
      assert Keys(h[1..])[j - 1] == k;
    }
    if k in Keys(h[1..]) {
      IndexOfTail(h, k);
    }
  }
}
