/**
 * A Ruby `Hash` as the parser uses it: key/value pairs kept in the order in
 * which each key was first inserted. Assigning to an existing key replaces
 * its value in place; a new key goes to the end.
 */
module AssocList {
  import opened Wrappers

  function Keys<K, V>(l: seq<(K, V)>): (r: seq<K>)
    ensures |r| == |l| && forall i :: 0 <= i < |l| ==> r[i] == l[i].0
  {
    seq(|l|, i requires 0 <= i < |l| => l[i].0)
  }

  predicate DistinctKeys<K(==, !new), V>(l: seq<(K, V)>) {
    forall i, j :: 0 <= i < j < |l| ==> l[i].0 != l[j].0
  }

  /** `h[k]`: the value stored under `k`, if any (the first pair with that key). */
  function Lookup<K(==, !new), V>(l: seq<(K, V)>, k: K): (r: Option<V>)
    ensures r.None? <==> forall i :: 0 <= i < |l| ==> l[i].0 != k
    ensures r.Some? ==>
      exists i :: 0 <= i < |l| && l[i] == (k, r.value) && forall j :: 0 <= j < i ==> l[j].0 != k
  {
    if l == [] then None
    else if l[0].0 == k then Some(l[0].1)
    else
      var r := Lookup(l[1..], k);
      assert forall i :: 1 <= i < |l| ==> l[1..][i - 1] == l[i];
      assert r.Some? ==>
        exists i :: 0 <= i < |l| && l[i] == (k, r.value) && forall j :: 0 <= j < i ==> l[j].0 != k
      by {
        if r.Some? {
          var i :| 0 <= i < |l| - 1 && l[1..][i] == (k, r.value) && forall j :: 0 <= j < i ==> l[1..][j].0 != k;
          assert l[i + 1] == (k, r.value) && forall j :: 0 <= j < i + 1 ==> l[j].0 != k;
        }
      }
      r
  }

  /** With distinct keys, the value of every pair is what `Lookup` finds for its key. */
  lemma LookupAt<K(!new), V>(l: seq<(K, V)>, i: nat)
    requires DistinctKeys(l)
    requires i < |l|
    ensures Lookup(l, l[i].0) == Some(l[i].1)
  {
  }

  /** The position of the first pair with key `k`. */
  function IndexOf<K(==, !new), V>(l: seq<(K, V)>, k: K): (i: nat)
    requires k in Keys(l)
    ensures i < |l| && l[i].0 == k && forall j :: 0 <= j < i ==> l[j].0 != k
  {
    if l[0].0 == k then 0
    else
      assert k in Keys(l[1..]) by {
        var m :| 0 <= m < |l| && Keys(l)[m] == k;
        assert Keys(l[1..])[m - 1] == k;
      }
      1 + IndexOf(l[1..], k)
  }

  /** The key order after `h[k] = v`: unchanged for a key already present, `k` last for a new one. */
  function AddKey<K(==)>(ks: seq<K>, k: K): seq<K> {
    if k in ks then ks else ks + [k]
  }

  /** `h[k] = v`: replaces the value of `k` where it stands, or adds `(k, v)` at the end. */
  function Put<K(==, !new), V>(l: seq<(K, V)>, k: K, v: V): seq<(K, V)> {
    if k in Keys(l) then l[IndexOf(l, k) := (k, v)] else l + [(k, v)]
  }

  /** Replacing a pair whose key is not `k'` does not change what `Lookup` finds for `k'`. */
  lemma {:induction false} LookupUpdate<K(!new), V>(l: seq<(K, V)>, i: nat, p: (K, V), k': K)
    requires i < |l| && l[i].0 != k' && p.0 != k'
    ensures Lookup(l[i := p], k') == Lookup(l, k')
  {
    var r := l[i := p];
    if i == 0 {
      assert r[1..] == l[1..];
    } else {
      assert r[0] == l[0];
      assert r[1..] == l[1..][i - 1 := p];
      LookupUpdate(l[1..], i - 1, p, k');
    }
  }

  lemma PutExisting<K(!new), V>(l: seq<(K, V)>, k: K, v: V)
    requires k in Keys(l)
    ensures Keys(Put(l, k, v)) == Keys(l)
    ensures Lookup(Put(l, k, v), k) == Some(v)
    ensures forall k' :: k' != k ==> Lookup(Put(l, k, v), k') == Lookup(l, k')
    ensures DistinctKeys(l) ==> DistinctKeys(Put(l, k, v))
  {
    var i := IndexOf(l, k);
    var r := Put(l, k, v);
    assert r == l[i := (k, v)];
    assert Keys(r) == Keys(l);
    forall k' | k' != k ensures Lookup(r, k') == Lookup(l, k') {
      LookupUpdate(l, i, (k, v), k');
    }
  }

  lemma PutNew<K(!new), V>(l: seq<(K, V)>, k: K, v: V)
    requires k !in Keys(l)
    ensures Keys(Put(l, k, v)) == Keys(l) + [k]
    ensures Lookup(Put(l, k, v), k) == Some(v)
    ensures forall k' :: k' != k ==> Lookup(Put(l, k, v), k') == Lookup(l, k')
    ensures DistinctKeys(l) ==> DistinctKeys(Put(l, k, v))
  {
    var r := Put(l, k, v);
    assert r == l + [(k, v)];
    assert Keys(r) == Keys(l) + [k];
    assert forall i :: 0 <= i < |l| ==> l[i].0 != k by {
      forall i | 0 <= i < |l| ensures l[i].0 != k {
        assert Keys(l)[i] == l[i].0;
      }
    }
    forall k' ensures Lookup(r, k') == LookupSnoc(l, (k, v), k') {
      LookupAppend(l, (k, v), k');
    }
  }

  /** `Put` keeps the key order, stores `v` under `k` and leaves every other key's value alone. */
  lemma PutSpec<K(!new), V>(l: seq<(K, V)>, k: K, v: V)
    ensures Keys(Put(l, k, v)) == if k in Keys(l) then Keys(l) else Keys(l) + [k]
    ensures Lookup(Put(l, k, v), k) == Some(v)
    ensures forall k' :: k' != k ==> Lookup(Put(l, k, v), k') == Lookup(l, k')
    ensures DistinctKeys(l) ==> DistinctKeys(Put(l, k, v))
  {
    if k in Keys(l) {
      PutExisting(l, k, v);
    } else {
      PutNew(l, k, v);
    }
  }

  function LookupSnoc<K(==, !new), V>(l: seq<(K, V)>, p: (K, V), k: K): Option<V> {
    if Lookup(l, k).Some? then Lookup(l, k) else if p.0 == k then Some(p.1) else None
  }

  lemma {:induction false} LookupAppend<K(!new), V>(l: seq<(K, V)>, p: (K, V), k: K)
    ensures Lookup(l + [p], k) == LookupSnoc(l, p, k)
  {
    if l != [] {
      assert (l + [p])[1..] == l[1..] + [p];
      LookupAppend(l[1..], p, k);
    }
  }

  /** The values listed under `k`, none when `k` is absent. */
  function Entries<K(==, !new), W>(l: seq<(K, seq<W>)>, k: K): seq<W> {
    match Lookup(l, k)
    case None => []
    case Some(ws) => ws
  }

  /** `h[k] ||= []; h[k] << w`. */
  function Append<K(==, !new), W>(l: seq<(K, seq<W>)>, k: K, w: W): seq<(K, seq<W>)> {
    Put(l, k, Entries(l, k) + [w])
  }

  /** `Append` adds `w` at the end of the list under `k` and leaves every other key's list alone. */
  lemma AppendSpec<K(!new), W>(l: seq<(K, seq<W>)>, k: K, w: W)
    ensures Keys(Append(l, k, w)) == if k in Keys(l) then Keys(l) else Keys(l) + [k]
    ensures Entries(Append(l, k, w), k) == Entries(l, k) + [w]
    ensures forall k' :: k' != k ==> Lookup(Append(l, k, w), k') == Lookup(l, k')
    ensures DistinctKeys(l) ==> DistinctKeys(Append(l, k, w))
  {
    PutSpec(l, k, Entries(l, k) + [w]);
  }

  /** What `Append` does to the list under one key. */
  lemma PutLookup<K(!new), V>(l: seq<(K, V)>, k: K, v: V, key: K)
    ensures Lookup(Put(l, k, v), key) == if key == k then Some(v) else Lookup(l, key)
  {
    PutSpec(l, k, v);
  }

  lemma PutKeys<K(!new), V>(l: seq<(K, V)>, k: K, v: V)
    ensures Keys(Put(l, k, v)) == AddKey(Keys(l), k)
  {
    PutSpec(l, k, v);
  }

  lemma AppendKeys<K(!new), W>(l: seq<(K, seq<W>)>, k: K, w: W)
    ensures Keys(Append(l, k, w)) == AddKey(Keys(l), k)
  {
    AppendSpec(l, k, w);
  }

  lemma AppendEntries<K(!new), W>(l: seq<(K, seq<W>)>, k: K, w: W, key: K)
    ensures Entries(Append(l, k, w), key) == if key == k then Entries(l, k) + [w] else Entries(l, key)
  {
    AppendSpec(l, k, w);
  }

  lemma AppendDistinct<K(!new), W>(l: seq<(K, seq<W>)>, k: K, w: W)
    requires DistinctKeys(l)
    ensures DistinctKeys(Append(l, k, w))
  {
    AppendSpec(l, k, w);
  }

  /** With distinct keys, an element is listed in some pair under `k` exactly when it is one of `Entries(l, k)`. */
  lemma EntriesMember<K(!new), W>(l: seq<(K, seq<W>)>, k: K, w: W)
    requires DistinctKeys(l)
    ensures w in Entries(l, k) <==> exists i :: 0 <= i < |l| && l[i].0 == k && w in l[i].1
  {
    if exists i :: 0 <= i < |l| && l[i].0 == k && w in l[i].1 {
      var i :| 0 <= i < |l| && l[i].0 == k && w in l[i].1;
      LookupAt(l, i);
    }
  }

  /** Appending to an empty hash makes a one-entry list. */
  lemma AppendEmpty<K(!new), W>(k: K, w: W)
    ensures Append([], k, w) == [(k, [w])]
  {
    assert Keys<K, seq<W>>([]) == [];
    assert Entries<K, W>([], k) + [w] == [w];
    assert Put<K, seq<W>>([], k, [w]) == [(k, [w])];
  }
}
