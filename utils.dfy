/** The three transforms of `fuso.utils`: indexing a list of records by one
    of their fields, sorting records by a field, and reordering a dict by a
    partial key order. A record is a dict from field names to values. */
module Utils {
  import opened Wrappers
  import opened Sequences
  import opened OrderedDict
  import opened Sorting

  type Record<V> = Dict<string, V>

  /** The KeyError raised when a record lacks the indexing field. */
  datatype KeyError = KeyError(message: string)

  /** The message of that KeyError: the field asked for and the fields the
      record has, in their order. */
  function MissingKeyMessage<V>(key: string, value: Record<V>): string
  {
    "Key '" + key + "' not found in value. Available keys: " + Join(Keys(value), ", ")
  }

  /** The message names the missing field right after `Key '` and ends with
      the record's fields. */
  lemma MissingKeyMessageShape<V>(key: string, value: Record<V>)
    ensures var r := MissingKeyMessage(key, value);
      5 + |key| <= |r| && r[..5] == "Key '" && r[5..5 + |key|] == key
    ensures var r, fields := MissingKeyMessage(key, value), Join(Keys(value), ", ");
      |fields| <= |r| && r[|r| - |fields|..] == fields
  {
  }

  /** Each further field of the record adds `, ` and its name at the end of
      the message. */
  lemma MissingKeyMessageSnoc<V>(key: string, value: Record<V>, field: (string, V))
    requires value != []
    ensures MissingKeyMessage(key, value + [field]) == MissingKeyMessage(key, value) + ", " + field.0
  {
    assert Keys(value + [field]) == Keys(value) + [field.0];
    JoinSnoc(Keys(value), field.0, ", ");
  }

  ghost predicate AllHaveKey<V>(values: seq<Record<V>>, key: string)
  {
    forall i :: 0 <= i < |values| ==> HasKey(values[i], key)
  }

  /** `value[key]` for a record that has the field. */
  function KeyOf<V>(value: Record<V>, key: string): V
    requires HasKey(value, key)
  {
    Get(value, key).value
  }

  // ---------------------------------------------------------------------
  // to_list_of_dicts_by_key

  /** What `to_list_of_dicts_by_key(values, key)` computes, one record at a
      time: the dict built from the records before the last one, updated
      with `last[key] -> last without key`, or the KeyError of the first
      record that lacks `key`. */
  function IndexedByKey<V(==)>(values: seq<Record<V>>, key: string): (r: Result<Dict<V, Record<V>>, KeyError>)
    ensures r.Success? ==> |r.value| <= |values|
    decreases |values|
  {
    if values == [] then Success([])
    else
      var value := values[|values| - 1];
      match IndexedByKey(values[..|values| - 1], key)
      case Failure(e) => Failure(e)
      case Success(result) =>
        match Pop(value, key)
        case None => Failure(KeyError(MissingKeyMessage(key, value)))
        case Some((valueKey, valueCopy)) => Success(SetItem(result, valueKey, valueCopy))
  }

  /** `to_list_of_dicts_by_key`: the loop that fills `result`, popping the
      key field from a copy of each record. */
  method ToListOfDictsByKey<V(==)>(values: seq<Record<V>>, key: string := "name")
    returns (r: Result<Dict<V, Record<V>>, KeyError>)
    ensures r == IndexedByKey(values, key)
  {
    var result: Dict<V, Record<V>> := [];
    for i := 0 to |values|
      invariant IndexedByKey(values[..i], key) == Success(result)
    {
      var value := values[i];
      assert values[..i + 1][..i] == values[..i];
      var valueCopy := value;
      match Pop(valueCopy, key)
      case None =>
        ghost var e := KeyError(MissingKeyMessage(key, value));
        assert IndexedByKey(values[..i + 1], key) == Failure(e);
        FailureIsFinal(values, i + 1, key);
        assert values[..|values|] == values;
        return Failure(KeyError(MissingKeyMessage(key, value)));
      case Some((valueKey, rest)) =>
        valueCopy := rest;
        result := SetItem(result, valueKey, valueCopy);
    }
    assert values[..|values|] == values;
    r := Success(result);
  }

  /** Once a prefix of the records has failed, the later records change
      nothing: the error is raised and no partial result is returned. */
  lemma {:induction false} FailureIsFinal<V>(values: seq<Record<V>>, n: nat, key: string)
    requires n <= |values|
    requires IndexedByKey(values[..n], key).Failure?
    ensures IndexedByKey(values, key) == IndexedByKey(values[..n], key)
    decreases |values|
  {
    if n == |values| {
      assert values[..n] == values;
    } else {
      var init := values[..|values| - 1];
      assert init[..n] == values[..n];
      FailureIsFinal(init, n, key);
    }
  }

  /** The key values of the records, in input order. */
  function KeyValues<V>(values: seq<Record<V>>, key: string): (ks: seq<V>)
    requires AllHaveKey(values, key)
    ensures |ks| == |values|
    decreases |values|
  {
    if values == [] then []
    else KeyValues(values[..|values| - 1], key) + [KeyOf(values[|values| - 1], key)]
  }

  /** Record `i` is the last one with its key value. */
  ghost predicate IsLastWithKey<V>(values: seq<Record<V>>, key: string, i: nat)
    requires AllHaveKey(values, key)
    requires i < |values|
  {
    forall j :: i < j < |values| ==> KeyOf(values[j], key) != KeyOf(values[i], key)
  }

  /** When every record has `key`, the call succeeds with one entry per
      distinct key value, in the order the values first occur. */
  lemma {:induction false} IndexedByKeyEntries<V>(values: seq<Record<V>>, key: string)
    requires AllHaveKey(values, key)
    ensures IndexedByKey(values, key).Success?
    ensures DistinctKeys(IndexedByKey(values, key).value)
    ensures Keys(IndexedByKey(values, key).value) == Dedup(KeyValues(values, key))
    decreases |values|
  {
    if values != [] {
      var n := |values|;
      var init := values[..n - 1];
      assert AllHaveKey(init, key);
      IndexedByKeyEntries(init, key);
      var acc := IndexedByKey(init, key).value;
      var kv, rest := KeyOf(values[n - 1], key), Pop(values[n - 1], key).value.1;
      IndexedByKeyLast(values, key);
      SetItemKeys(acc, kv, rest);
      SetItemDistinct(acc, kv, rest);
      assert KeyValues(values, key)[..n - 1] == KeyValues(init, key);
    }
  }

  /** The entry of each key value holds the last record with that value,
      without the key field. */
  lemma {:induction false} IndexedByKeyValues<V>(values: seq<Record<V>>, key: string)
    requires AllHaveKey(values, key)
    ensures IndexedByKey(values, key).Success?
    ensures forall i :: 0 <= i < |values| && IsLastWithKey(values, key, i) ==>
      Get(IndexedByKey(values, key).value, KeyOf(values[i], key)) == Some(Pop(values[i], key).value.1)
    decreases |values|
  {
    if values != [] {
      var n := |values|;
      var init := values[..n - 1];
      assert AllHaveKey(init, key);
      IndexedByKeyValues(init, key);
      var acc := IndexedByKey(init, key).value;
      var kv, rest := KeyOf(values[n - 1], key), Pop(values[n - 1], key).value.1;
      IndexedByKeyLast(values, key);
      forall i | 0 <= i < n && IsLastWithKey(values, key, i)
        ensures Get(SetItem(acc, kv, rest), KeyOf(values[i], key)) == Some(Pop(values[i], key).value.1)
      {
        SetItemGet(acc, kv, rest, KeyOf(values[i], key));
        if i < n - 1 {
          assert init[i] == values[i];
          assert IsLastWithKey(init, key, i);
        }
      }
    }
  }

  /** The step for a last record that has `key`, after the others succeeded. */
  lemma IndexedByKeyLast<V>(values: seq<Record<V>>, key: string)
    requires values != [] && HasKey(values[|values| - 1], key)
    requires IndexedByKey(values[..|values| - 1], key).Success?
    ensures IndexedByKey(values, key) == Success(SetItem(
      IndexedByKey(values[..|values| - 1], key).value,
      KeyOf(values[|values| - 1], key),
      Pop(values[|values| - 1], key).value.1))
  {
    PopValue(values[|values| - 1], key);
  }

  /** The call fails exactly when some record lacks `key`. */
  lemma {:induction false} IndexedByKeyFails<V>(values: seq<Record<V>>, key: string)
    ensures IndexedByKey(values, key).Failure? <==> exists i :: 0 <= i < |values| && !HasKey(values[i], key)
    decreases |values|
  {
    if values != [] {
      var n := |values|;
      var init := values[..n - 1];
      IndexedByKeyFails(init, key);
      if IndexedByKey(init, key).Failure? {
        var i :| 0 <= i < n - 1 && !HasKey(init[i], key);
        assert values[i] == init[i];
      } else if exists i :: 0 <= i < n && !HasKey(values[i], key) {
        var i :| 0 <= i < n && !HasKey(values[i], key);
        if i < n - 1 {
          assert false;
        }
      }
    }
  }

  /** It fails with the message built from the first record that lacks
      `key`. */
  lemma {:induction false} IndexedByKeyFirstMissing<V>(values: seq<Record<V>>, key: string, i: nat)
    requires i < |values| && !HasKey(values[i], key)
    requires forall j :: 0 <= j < i ==> HasKey(values[j], key)
    ensures IndexedByKey(values, key) == Failure(KeyError(MissingKeyMessage(key, values[i])))
    decreases |values|
  {
    var n := |values|;
    var init := values[..n - 1];
    if i == n - 1 {
      IndexedByKeyFails(init, key);
      assert Pop(values[i], key).None?;
    } else {
      assert init[i] == values[i];
      IndexedByKeyFirstMissing(init, key, i);
    }
  }

  // ---------------------------------------------------------------------
  // sort_list_of_dicts_by_key

  /** `lambda x: x[key]`, on a record that has `key`; `None` on one that
      lacks it, where Python raises. */
  function FieldOf<V>(key: string): Record<V> -> Option<V>
  {
    r => Get(r, key)
  }

  /** The field is found exactly on records that have `key`, and it is the
      value stored there. */
  lemma FieldOfIsField<V>(key: string, x: Record<V>)
    ensures FieldOf(key)(x).Some? <==> HasKey(x, key)
    ensures FieldOf(key)(x).Some? ==> (key, FieldOf(key)(x).value) in x
  {
  }

  /** `lt` on field values, extended to a missing field (which sorts first;
      records without the field are outside what the sort accepts). */
  function OptionLess<V>(lt: (V, V) -> bool): (Option<V>, Option<V>) -> bool
  {
    (a: Option<V>, b: Option<V>) => if a.None? then b.Some? else b.Some? && lt(a.value, b.value)
  }

  lemma OptionLessOrder<V(!new)>(lt: (V, V) -> bool)
    requires StrictTotalOrder(lt)
    ensures StrictTotalOrder(OptionLess(lt))
  {
    forall a: Option<V>, b: Option<V>, c: Option<V>
      ensures OrderLaws(OptionLess(lt), a, b, c)
    {
      if a.Some? {
        assert OrderLaws(lt, a.value, a.value, a.value);
      }
      if a.Some? && b.Some? {
        assert OrderLaws(lt, a.value, b.value, a.value);
      }
      if a.Some? && b.Some? && c.Some? {
        assert OrderLaws(lt, a.value, b.value, c.value);
      }
    }
  }

  /** `sort_list_of_dicts_by_key(values, key, reverse)`: `sorted` with the
      field `key` as sort key, where `lt` is the `<` of the field values. */
  function SortListOfDictsByKey<V>(values: seq<Record<V>>, key: string, lt: (V, V) -> bool, reverse: bool := false): (r: seq<Record<V>>)
    requires AllHaveKey(values, key)
    ensures multiset(r) == multiset(values)
  {
    Sorted(values, FieldOf(key), OptionLess(lt), reverse)
  }

  /** Every record has `key`, and no record comes after one whose field it
      should precede: ascending, or descending with `reverse`. */
  ghost predicate OrderedByField<V>(s: seq<Record<V>>, key: string, lt: (V, V) -> bool, reverse: bool)
  {
    && AllHaveKey(s, key)
    && forall i, j :: 0 <= i < j < |s| ==>
         !(if reverse then lt(KeyOf(s[i], key), KeyOf(s[j], key)) else lt(KeyOf(s[j], key), KeyOf(s[i], key)))
  }

  /** The records of `s` whose field `key` equals `v`, in their order in `s`. */
  function WithField<V(==)>(s: seq<Record<V>>, key: string, v: V): seq<Record<V>>
  {
    WithKey(s, FieldOf(key), Some(v))
  }

  /** The result is ordered by the field. */
  lemma SortListOfDictsByKeyOrdered<V(!new)>(values: seq<Record<V>>, key: string, lt: (V, V) -> bool, reverse: bool)
    requires AllHaveKey(values, key)
    requires StrictTotalOrder(lt)
    ensures OrderedByField(SortListOfDictsByKey(values, key, lt, reverse), key, lt, reverse)
  {
    var r := SortListOfDictsByKey(values, key, lt, reverse);
    OptionLessOrder(lt);
    SortedOrdered(values, FieldOf(key), OptionLess(lt), reverse);
    forall i | 0 <= i < |r|
      ensures HasKey(r[i], key)
    {
      assert r[i] in multiset(values);
    }
  }

  /** The sort is stable: records with equal fields keep their input order. */
  lemma SortListOfDictsByKeyStable<V(!new)>(values: seq<Record<V>>, key: string, lt: (V, V) -> bool, reverse: bool, v: V)
    requires AllHaveKey(values, key)
    requires StrictTotalOrder(lt)
    ensures WithField(SortListOfDictsByKey(values, key, lt, reverse), key, v) == WithField(values, key, v)
  {
    OptionLessOrder(lt);
    SortedStable(values, FieldOf(key), OptionLess(lt), reverse, Some(v));
  }

  /** Being ordered by the field and stable determines the result: any
      arrangement with both properties is the one returned. */
  lemma SortListOfDictsByKeyUnique<V(!new)>(values: seq<Record<V>>, t: seq<Record<V>>, key: string, lt: (V, V) -> bool, reverse: bool)
    requires AllHaveKey(values, key)
    requires StrictTotalOrder(lt)
    requires OrderedByField(t, key, lt, reverse)
    requires forall v :: WithField(t, key, v) == WithField(values, key, v)
    ensures t == SortListOfDictsByKey(values, key, lt, reverse)
  {
    OptionLessOrder(lt);
    forall u: Option<V>
      ensures WithKey(t, FieldOf(key), u) == WithKey(values, FieldOf(key), u)
    {
      if u.None? {
        NoneMissing(t, key);
        NoneMissing(values, key);
      } else {
        assert WithField(t, key, u.value) == WithField(values, key, u.value);
      }
    }
    SortedUnique(values, t, FieldOf(key), OptionLess(lt), reverse);
  }

  lemma NoneMissing<V>(s: seq<Record<V>>, key: string)
    requires AllHaveKey(s, key)
    ensures WithKey(s, FieldOf(key), None) == []
  {
  }

  // ---------------------------------------------------------------------
  // sort_dict

  /** `key_order`, where None stands for the empty list. */
  function KeyOrderList<K>(keyOrder: Option<seq<K>>): seq<K>
  {
    if keyOrder.None? then [] else keyOrder.value
  }

  /** Passing no key order is the same as passing an empty one. */
  lemma SortDictNoKeyOrder<K, V>(d: Dict<K, V>)
    ensures SortDict(d, None) == SortDict(d, Some([]))
  {
  }

  /** `[k for k in ks if k not in key_order]`. */
  function OtherKeys<K(==)>(ks: seq<K>, keyOrder: seq<K>): (r: seq<K>)
    ensures forall i :: 0 <= i < |r| ==> r[i] in ks && r[i] !in keyOrder
    ensures forall i :: 0 <= i < |ks| && ks[i] !in keyOrder ==> ks[i] in r
  {
    if ks == [] then []
    else (if ks[0] in keyOrder then [] else [ks[0]]) + OtherKeys(ks[1..], keyOrder)
  }

  /** `key_order + other_keys`: every key of `d` occurs in it. */
  function SortOrder<K(==), V>(d: Dict<K, V>, keyOrder: seq<K>): (order: seq<K>)
    ensures forall i :: 0 <= i < |d| ==> d[i].0 in order
  {
    keyOrder + OtherKeys(Keys(d), keyOrder)
  }

  /** `lambda x: order.index(x[0])`. */
  function Rank<K(==), V>(order: seq<K>): ((K, V)) -> int
  {
    (e: (K, V)) => IndexOf(order, e.0)
  }

  /** The rank of an entry whose key is in `order` is the first position of
      that key in `order`. */
  lemma RankIsIndex<K, V>(order: seq<K>, e: (K, V), j: nat)
    requires e.0 in order
    ensures 0 <= Rank(order)(e) < |order| && order[Rank(order)(e)] == e.0
    ensures j < Rank(order)(e) ==> order[j] != e.0
  {
    if j < Rank(order)(e) {
      IndexOfFirst(order, e.0, j);
    }
  }

  function IntLess(a: int, b: int): bool
  {
    a < b
  }

  lemma IntLessOrder()
    ensures StrictTotalOrder(IntLess)
  {
  }

  /** `sort_dict(d, key_order)`: the entries of `d` sorted by the position of
      their key in `key_order + other_keys`. */
  function SortDict<K(==), V>(d: Dict<K, V>, keyOrder: Option<seq<K>> := None): (r: Dict<K, V>)
    ensures multiset(r) == multiset(d)
  {
    Sorted(d, Rank(SortOrder(d, KeyOrderList(keyOrder))), IntLess)
  }

  /** The result holds the same key-value pairs as `d`. */
  lemma SortDictEntries<K, V>(d: Dict<K, V>, keyOrder: Option<seq<K>>)
    requires DistinctKeys(d)
    ensures DistinctKeys(SortDict(d, keyOrder))
    ensures forall k :: Get(SortDict(d, keyOrder), k) == Get(d, k)
  {
    PermutationKeepsEntries(d, SortDict(d, keyOrder));
  }

  /** The ranks of the keys strictly increase along the result. */
  lemma SortDictRanks<K, V>(d: Dict<K, V>, keyOrder: Option<seq<K>>)
    requires DistinctKeys(d)
    ensures var r, order := SortDict(d, keyOrder), SortOrder(d, KeyOrderList(keyOrder));
      forall i, j :: 0 <= i < j < |r| ==> IndexOf(order, r[i].0) < IndexOf(order, r[j].0)
  {
    var r, order := SortDict(d, keyOrder), SortOrder(d, KeyOrderList(keyOrder));
    IntLessOrder();
    SortedOrdered(d, Rank(order), IntLess, false);
    SortDictEntries(d, keyOrder);
    forall i | 0 <= i < |r|
      ensures r[i].0 in order
    {
      assert r[i] in multiset(d);
    }
    StrictRanks(r, order);
  }

  /** In a dict with unique keys, all listed in `order`, sorted by rank, the
      ranks strictly increase. */
  lemma StrictRanks<K, V>(r: Dict<K, V>, order: seq<K>)
    requires DistinctKeys(r)
    requires forall i :: 0 <= i < |r| ==> r[i].0 in order
    requires Ordered(r, Rank(order), IntLess, false)
    ensures forall i, j :: 0 <= i < j < |r| ==> IndexOf(order, r[i].0) < IndexOf(order, r[j].0)
  {
  }

  /** Keys listed in `key_order` come first, in `key_order`'s order; the
      other keys follow in their order in `d`. */
  lemma SortDictOrder<K, V>(d: Dict<K, V>, keyOrder: Option<seq<K>>)
    requires DistinctKeys(d)
    ensures var r, ko := SortDict(d, keyOrder), KeyOrderList(keyOrder);
      forall i, j :: 0 <= i < j < |r| && r[j].0 in ko ==>
        r[i].0 in ko && IndexOf(ko, r[i].0) < IndexOf(ko, r[j].0)
    ensures var r, ko := SortDict(d, keyOrder), KeyOrderList(keyOrder);
      forall i, j :: 0 <= i < j < |r| && r[i].0 !in ko && r[j].0 !in ko ==>
        IndexOf(Keys(d), r[i].0) < IndexOf(Keys(d), r[j].0)
  {
    var r, ko := SortDict(d, keyOrder), KeyOrderList(keyOrder);
    var others := OtherKeys(Keys(d), ko);
    SortDictRanks(d, keyOrder);
    forall i, j | 0 <= i < j < |r|
      ensures r[j].0 in ko ==> r[i].0 in ko && IndexOf(ko, r[i].0) < IndexOf(ko, r[j].0)
      ensures r[i].0 !in ko && r[j].0 !in ko ==> IndexOf(Keys(d), r[i].0) < IndexOf(Keys(d), r[j].0)
    {
      IndexOfConcat(ko, others, r[i].0);
      IndexOfConcat(ko, others, r[j].0);
      if r[i].0 !in ko && r[j].0 !in ko {
        assert r[i] in multiset(d) && r[j] in multiset(d);
        assert r[i].0 in others && r[j].0 in others;
        OtherKeysOrder(Keys(d), ko, r[i].0, r[j].0);
      }
    }
  }

  /** Filtering keeps the relative order of the kept keys. */
  lemma {:induction false} OtherKeysOrder<K>(ks: seq<K>, keyOrder: seq<K>, a: K, b: K)
    requires a in OtherKeys(ks, keyOrder) && b in OtherKeys(ks, keyOrder)
    requires IndexOf(OtherKeys(ks, keyOrder), a) < IndexOf(OtherKeys(ks, keyOrder), b)
    ensures IndexOf(ks, a) < IndexOf(ks, b)
  {
    var o, tail := OtherKeys(ks, keyOrder), OtherKeys(ks[1..], keyOrder);
    if ks[0] == b {
      assert false;
    } else if ks[0] != a {
      assert IndexOf(ks, a) == 1 + IndexOf(ks[1..], a);
      assert IndexOf(ks, b) == 1 + IndexOf(ks[1..], b);
      if ks[0] in keyOrder {
        assert o == tail;
      } else {
        assert o == [ks[0]] + tail;
        assert o[1..] == tail;
        assert IndexOf(o, a) == 1 + IndexOf(tail, a);
        assert IndexOf(o, b) == 1 + IndexOf(tail, b);
      }
      OtherKeysOrder(ks[1..], keyOrder, a, b);
    }
  }

  /** Without a key order the keys keep their order. */
  lemma {:induction false} OtherKeysAll<K>(ks: seq<K>)
    ensures OtherKeys(ks, []) == ks
  {
    if ks != [] {
      OtherKeysAll(ks[1..]);
    }
  }

  /** With no key order, or an empty one, `d` comes back unchanged. */
  lemma SortDictUnchanged<K, V>(d: Dict<K, V>, keyOrder: Option<seq<K>>)
    requires DistinctKeys(d)
    requires keyOrder == None || keyOrder == Some([])
    ensures SortDict(d, keyOrder) == d
  {
    var order := SortOrder(d, KeyOrderList(keyOrder));
    OtherKeysAll(Keys(d));
    assert order == Keys(d);
    IntLessOrder();
    forall i | 0 <= i < |d|
      ensures IndexOf(order, d[i].0) == i
    {
      IndexOfDistinct(Keys(d), i);
    }
    SortedOfOrdered(d, Rank(order), IntLess, false);
  }
}
