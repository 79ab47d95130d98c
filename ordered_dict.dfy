/** A Python `dict` as the sequence of its entries in insertion order.
    Python keeps keys unique, so every dict the utilities build or receive
    satisfies `DistinctKeys`. */
module OrderedDict {
  import opened Wrappers
  import opened Sequences

  type Dict<K, V> = seq<(K, V)>

  /** `list(d.keys())`. */
  function Keys<K, V>(d: Dict<K, V>): (ks: seq<K>)
    ensures |ks| == |d|
    ensures forall i :: 0 <= i < |d| ==> ks[i] == d[i].0
  {
    seq(|d|, i requires 0 <= i < |d| => d[i].0)
  }

  ghost predicate DistinctKeys<K, V>(d: Dict<K, V>)
  {
    forall i, j :: 0 <= i < j < |d| ==> d[i].0 != d[j].0
  }

  /** With unique keys, `d.keys()` lists each key once: the key of entry `i`
      is found at position `i` and nowhere before. */
  lemma KeysPositions<K, V>(d: Dict<K, V>, i: nat)
    requires DistinctKeys(d)
    requires i < |d|
    ensures IndexOf(Keys(d), d[i].0) == i
    ensures forall j :: 0 <= j < |d| && j != i ==> Keys(d)[j] != d[i].0
  {
    IndexOfDistinct(Keys(d), i);
  }

  /** `k in d`. */
  predicate HasKey<K(==), V>(d: Dict<K, V>, k: K)
  {
    k in Keys(d)
  }

  /** `d[k]`: the value stored under `k`, or None where Python raises KeyError. */
  function Get<K(==), V>(d: Dict<K, V>, k: K): (r: Option<V>)
    ensures r.Some? <==> HasKey(d, k)
    ensures r.Some? ==> (k, r.value) in d
  {
    if d == [] then None
    else if d[0].0 == k then Some(d[0].1)
    else Get(d[1..], k)
  }

  /** With unique keys, `d` maps `k` to `v` exactly when `(k, v)` is one of its
      entries. */
  lemma GetIsEntry<K, V>(d: Dict<K, V>, k: K, v: V)
    requires DistinctKeys(d)
    ensures Get(d, k) == Some(v) <==> (k, v) in d
  {
  }

  /** `d[k] = v`: an existing key keeps its position and gets the new value;
      a new key is appended at the end. */
  function SetItem<K(==), V>(d: Dict<K, V>, k: K, v: V): (r: Dict<K, V>)
    ensures |r| == if HasKey(d, k) then |d| else |d| + 1
  {
    if d == [] then [(k, v)]
    else if d[0].0 == k then [(k, v)] + d[1..]
    else [d[0]] + SetItem(d[1..], k, v)
  }

  /** `d[k] = v` leaves every key where it was and appends a new one. */
  lemma {:induction false} SetItemKeys<K, V>(d: Dict<K, V>, k: K, v: V)
    ensures Keys(SetItem(d, k, v)) == if HasKey(d, k) then Keys(d) else Keys(d) + [k]
  {
    if d != [] {
      var r := SetItem(d, k, v);
      KeysTail(d);
      KeysTail(r);
      if d[0].0 == k {
        assert r[1..] == d[1..];
      } else {
        SetItemKeys(d[1..], k, v);
        assert r[1..] == SetItem(d[1..], k, v);
      }
    }
  }

  /** The keys of a non-empty dict: its first key, then the rest's. */
  lemma KeysTail<K, V>(d: Dict<K, V>)
    requires d != []
    ensures Keys(d) == [d[0].0] + Keys(d[1..])
  {
  }

  /** After `d[k] = v`, `k` maps to `v` and every other key to what it did. */
  lemma {:induction false} SetItemGet<K, V>(d: Dict<K, V>, k: K, v: V, k': K)
    ensures Get(SetItem(d, k, v), k') == if k' == k then Some(v) else Get(d, k')
  {
    if d != [] {
      var r := SetItem(d, k, v);
      if d[0].0 == k {
        assert r[1..] == d[1..];
      } else {
        SetItemGet(d[1..], k, v, k');
        assert r[1..] == SetItem(d[1..], k, v);
      }
    }
  }

  /** `d[k] = v` keeps keys unique. */
  lemma SetItemDistinct<K, V>(d: Dict<K, V>, k: K, v: V)
    requires DistinctKeys(d)
    ensures DistinctKeys(SetItem(d, k, v))
  {
    var r := SetItem(d, k, v);
    SetItemKeys(d, k, v);
    var ks := Keys(r);
    forall i, j | 0 <= i < j < |r|
      ensures r[i].0 != r[j].0
    {
      assert ks[i] == r[i].0 && ks[j] == r[j].0;
      if j == |d| {
        assert Keys(d)[i] == ks[i];
      } else {
        assert Keys(d)[i] == ks[i] && Keys(d)[j] == ks[j];
      }
    }
  }

  /** `d.pop(k)` on a copy of `d`: the value under `k` and the entries left
      once that entry is removed, or None where Python raises KeyError. */
  function Pop<K(==), V>(d: Dict<K, V>, k: K): (r: Option<(V, Dict<K, V>)>)
    ensures r.Some? <==> HasKey(d, k)
  {
    if d == [] then None
    else if d[0].0 == k then Some((d[0].1, d[1..]))
    else
      var r := Pop(d[1..], k);
      if r.None? then None else Some((r.value.0, [d[0]] + r.value.1))
  }

  /** `pop` returns the value stored under the key. */
  lemma {:induction false} PopValue<K, V>(d: Dict<K, V>, k: K)
    requires HasKey(d, k)
    ensures Pop(d, k).value.0 == Get(d, k).value
  {
    if d[0].0 != k {
      KeysTail(d);
      PopValue(d[1..], k);
    }
  }

  /** `pop` removes exactly the entry of the key: the others stay, in their
      order. */
  lemma {:induction false} PopEntries<K, V>(d: Dict<K, V>, k: K)
    requires HasKey(d, k)
    ensures Pop(d, k).value.1 == d[..IndexOf(Keys(d), k)] + d[IndexOf(Keys(d), k) + 1..]
  {
    if d[0].0 != k {
      HasKeyTail(d, k);
      PopEntries(d[1..], k);
      PopEntriesStep(d, k, IndexOf(Keys(d[1..]), k));
    }
  }

  lemma HasKeyTail<K, V>(d: Dict<K, V>, k: K)
    requires HasKey(d, k) && d[0].0 != k
    ensures HasKey(d[1..], k)
    ensures IndexOf(Keys(d), k) == IndexOf(Keys(d[1..]), k) + 1
  {
    KeysTail(d);
  }

  lemma PopEntriesStep<K, V>(d: Dict<K, V>, k: K, i: nat)
    requires HasKey(d, k) && d[0].0 != k
    requires i == IndexOf(Keys(d[1..]), k)
    requires Pop(d[1..], k).value.1 == d[1..][..i] + d[1..][i + 1..]
    ensures Pop(d, k).value.1 == d[..i + 1] + d[i + 2..]
  {
    HasKeyTail(d, k);
    assert Pop(d, k).value.1 == [d[0]] + Pop(d[1..], k).value.1;
    DropAfterFirst(d, i);
  }

  /** Removing position `i` of the tail of `d` removes position `i + 1` of
      `d`. */
  lemma DropAfterFirst<T>(d: seq<T>, i: nat)
    requires i + 1 < |d|
    ensures [d[0]] + (d[1..][..i] + d[1..][i + 1..]) == d[..i + 1] + d[i + 2..]
  {
    assert d[1..][..i] == d[1..i + 1] && d[1..][i + 1..] == d[i + 2..];
    assert [d[0]] + d[1..i + 1] == d[..i + 1];
  }

  /** What `pop` leaves behind keeps unique keys, no longer holds the key, and
      maps every other key as before. */
  lemma PopRest<K, V>(d: Dict<K, V>, k: K, k': K)
    requires DistinctKeys(d) && HasKey(d, k)
    ensures DistinctKeys(Pop(d, k).value.1)
    ensures Get(Pop(d, k).value.1, k') == if k' == k then None else Get(d, k')
  {
    PopEntries(d, k);
    var i := IndexOf(Keys(d), k);
    RemoveAtKeepsEntries(d, i, k');
  }

  /** Removing the entry at position `i` from a dict with unique keys keeps
      them unique. */
  lemma RemoveAtDistinct<K, V>(d: Dict<K, V>, i: nat)
    requires DistinctKeys(d) && i < |d|
    ensures DistinctKeys(d[..i] + d[i + 1..])
  {
    var rest := d[..i] + d[i + 1..];
    forall p, q | 0 <= p < q < |rest|
      ensures rest[p].0 != rest[q].0
    {
      RemoveAtIndex(d, i, p);
      RemoveAtIndex(d, i, q);
    }
  }

  /** Removing the entry at position `i` from a dict with unique keys drops
      that key and keeps every other one. */
  lemma RemoveAtKeepsEntries<K, V>(d: Dict<K, V>, i: nat, k': K)
    requires DistinctKeys(d) && i < |d|
    ensures DistinctKeys(d[..i] + d[i + 1..])
    ensures Get(d[..i] + d[i + 1..], k') == if k' == d[i].0 then None else Get(d, k')
  {
    RemoveAtDistinct(d, i);
    if Get(d[..i] + d[i + 1..], k').Some? {
      RemoveAtKeeps(d, i, k', Get(d[..i] + d[i + 1..], k').value);
    } else if Get(d, k').Some? && k' != d[i].0 {
      RemoveAtLoses(d, i, k', Get(d, k').value);
    }
  }

  lemma RemoveAtKeeps<K, V>(d: Dict<K, V>, i: nat, k': K, w: V)
    requires DistinctKeys(d) && i < |d|
    requires Get(d[..i] + d[i + 1..], k') == Some(w)
    ensures k' != d[i].0 && Get(d, k') == Some(w)
  {
    var rest := d[..i] + d[i + 1..];
    var j :| 0 <= j < |rest| && rest[j] == (k', w);
    RemoveAtIndex(d, i, j);
    GetIsEntry(d, k', w);
  }

  /** Position `j` of `d` without its entry `i`. */
  lemma RemoveAtIndex<T>(d: seq<T>, i: nat, j: nat)
    requires i < |d| && j < |d| - 1
    ensures (d[..i] + d[i + 1..])[j] == d[if j < i then j else j + 1]
  {
  }

  lemma RemoveAtLoses<K, V>(d: Dict<K, V>, i: nat, k': K, w: V)
    requires DistinctKeys(d) && i < |d|
    requires Get(d, k') == Some(w) && k' != d[i].0
    ensures Get(d[..i] + d[i + 1..], k') == Some(w)
  {
    var j :| 0 <= j < |d| && d[j] == (k', w);
    if j < i {
      assert d[j] == d[..i][j];
    } else {
      assert d[j] == d[i + 1..][j - i - 1];
    }
    assert (k', w) in d[..i] + d[i + 1..];
    RemoveAtDistinct(d, i);
    GetIsEntry(d[..i] + d[i + 1..], k', w);
  }

  /** Two dicts with unique keys holding the same entries in any order map
      every key to the same value; a reordering of a dict with unique keys
      has unique keys. */
  lemma {:induction false} PermutationKeepsEntries<K, V>(a: Dict<K, V>, b: Dict<K, V>)
    requires DistinctKeys(a)
    requires multiset(a) == multiset(b)
    ensures DistinctKeys(b)
    ensures forall k :: Get(a, k) == Get(b, k)
  {
    forall i, j | 0 <= i < j < |b|
      ensures b[i].0 != b[j].0
    {
      if b[i].0 == b[j].0 {
        assert b[i] in multiset(a) && b[j] in multiset(a);
        var p :| 0 <= p < |a| && a[p] == b[i];
        var q :| 0 <= q < |a| && a[q] == b[j];
        assert p == q;
        CountUnique(a, b[i]);
        CountRepeated(b, i, j);
        assert false;
      }
    }
    forall k
      ensures Get(a, k) == Get(b, k)
    {
      if Get(a, k).Some? {
        var v := Get(a, k).value;
        GetIsEntry(a, k, v);
        assert (k, v) in multiset(b);
        GetIsEntry(b, k, v);
      } else if Get(b, k).Some? {
        var v := Get(b, k).value;
        GetIsEntry(b, k, v);
        assert (k, v) in multiset(a);
        GetIsEntry(a, k, v);
      }
    }
  }

  /** A dict with unique keys holds each entry at most once. */
  lemma {:induction false} CountUnique<K, V>(d: Dict<K, V>, e: (K, V))
    requires DistinctKeys(d)
    ensures multiset(d)[e] <= 1
  {
    if d != [] {
      assert d == [d[0]] + d[1..];
      CountUnique(d[1..], e);
      if e == d[0] {
        assert e !in d[1..];
      }
    }
  }

  /** An element at two positions of `s` occurs at least twice. */
  lemma CountRepeated<T>(s: seq<T>, i: nat, j: nat)
    requires i < j < |s| && s[i] == s[j]
    ensures multiset(s)[s[i]] >= 2
  {
    assert s == s[..j] + [s[j]] + s[j + 1..];
    assert s[i] in s[..j];
  }
}
