/**
 * Ruby's Hash as the modelled code uses it: an insertion-ordered table.
 * Assigning to a key that is present replaces its value where it stands;
 * assigning to a new key appends the pair at the end.
 */
module OrderedHash {
  import opened Wrappers

  /** The keys in insertion order (Hash#keys). */
  function Keys<K, V>(h: seq<(K, V)>): (ks: seq<K>)
    ensures |ks| == |h|
    ensures forall i :: 0 <= i < |h| ==> ks[i] == h[i].0
  {
    if |h| == 0 then [] else [h[0].0] + Keys(h[1..])
  }

  predicate UniqueKeys<K(==), V>(h: seq<(K, V)>) {
    forall i, j :: 0 <= i < j < |h| ==> h[i].0 != h[j].0
  }

  /** Hash#[] without a default: the value of the first pair with key k. */
  function Get<K(==), V>(h: seq<(K, V)>, k: K): (r: Option<V>)
    ensures r.None? <==> k !in Keys(h)
  {
    if |h| == 0 then None
    else if h[0].0 == k then Some(h[0].1)
    else Get(h[1..], k)
  }

  /** Hash#[]= : replace in place when k is present, append otherwise. */
  function Put<K(==), V>(h: seq<(K, V)>, k: K, v: V): seq<(K, V)>
  {
    if |h| == 0 then [(k, v)]
    else if h[0].0 == k then [(k, v)] + h[1..]
    else [h[0]] + Put(h[1..], k, v)
  }

  /** Assigning every pair of `entries` in order (Hash#merge!, or a loop of []=). */
  function PutAll<K(==), V>(h: seq<(K, V)>, entries: seq<(K, V)>): seq<(K, V)>
    decreases |entries|
  {
    if |entries| == 0 then h
    else PutAll(Put(h, entries[0].0, entries[0].1), entries[1..])
  }

  /** PutAll over one more entry is one more Put. */
  lemma {:induction false} PutAllSnoc<K, V>(h: seq<(K, V)>, entries: seq<(K, V)>, k: K, v: V)
    ensures PutAll(h, entries + [(k, v)]) == Put(PutAll(h, entries), k, v)
    decreases |entries|
  {
    if |entries| == 0 {
      assert entries + [(k, v)] == [(k, v)];
    } else {
      assert (entries + [(k, v)])[1..] == entries[1..] + [(k, v)];
      PutAllSnoc(Put(h, entries[0].0, entries[0].1), entries[1..], k, v);
    }
  }

  /** After h[k] = v, reading k gives v and every other key reads as before. */
  lemma {:induction false} GetPut<K, V>(h: seq<(K, V)>, k: K, v: V, k': K)
    ensures Get(Put(h, k, v), k') == if k' == k then Some(v) else Get(h, k')
  {
    if |h| > 0 && h[0].0 != k {
      GetPut(h[1..], k, v, k');
      assert Put(h, k, v)[1..] == Put(h[1..], k, v);
    }
  }

  /** h[k] = v leaves the key order alone when k is present and appends k otherwise. */
  lemma {:induction false} KeysPut<K, V>(h: seq<(K, V)>, k: K, v: V)
    ensures Keys(Put(h, k, v)) == if k in Keys(h) then Keys(h) else Keys(h) + [k]
  {
    if |h| > 0 && h[0].0 != k {
      KeysPut(h[1..], k, v);
      assert Keys(h) == [h[0].0] + Keys(h[1..]);
      assert Put(h, k, v) == [h[0]] + Put(h[1..], k, v);
      assert Keys(Put(h, k, v)) == [h[0].0] + Keys(Put(h[1..], k, v));
    } else if |h| > 0 {
      assert Keys(Put(h, k, v)) == [k] + Keys(h[1..]);
    }
  }

  /** Assignment never introduces a duplicate key. */
  lemma PutUnique<K, V>(h: seq<(K, V)>, k: K, v: V)
    requires UniqueKeys(h)
    ensures UniqueKeys(Put(h, k, v))
  {
    KeysPut(h, k, v);
    var r := Put(h, k, v);
    assert Keys(r) == if k in Keys(h) then Keys(h) else Keys(h) + [k];
    forall i, j | 0 <= i < j < |r| ensures r[i].0 != r[j].0 {
      assert Keys(r)[i] == r[i].0 && Keys(r)[j] == r[j].0;
      if k !in Keys(h) && j == |h| {
        assert Keys(h)[i] == h[i].0;
      } else {
        assert Keys(h)[i] == h[i].0 && Keys(h)[j] == h[j].0;
      }
    }
  }

  /** With unique keys, every pair is what its key reads as. */
  lemma {:induction false} GetUnique<K, V>(h: seq<(K, V)>, i: nat)
    requires UniqueKeys(h) && i < |h|
    ensures Get(h, h[i].0) == Some(h[i].1)
  {
    if i > 0 {
      assert h[1..][i - 1] == h[i];
      GetUnique(h[1..], i - 1);
    }
  }

  /** A key that reads as v is held by some pair (k, v). */
  lemma {:induction false} GetIn<K, V>(h: seq<(K, V)>, k: K)
    requires Get(h, k).Some?
    ensures exists i :: 0 <= i < |h| && h[i] == (k, Get(h, k).value)
  {
    if h[0].0 != k {
      GetIn(h[1..], k);
      var i :| 0 <= i < |h[1..]| && h[1..][i] == (k, Get(h[1..], k).value);
      assert h[i + 1] == (k, Get(h, k).value);
    }
  }
}
