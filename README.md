# fuso utilities, modelled in Dafny

This project models `src/fuso/utils.py` of the `fuso` package: the three
transforms on ordered mappings and lists of mappings (records).

- `to_list_of_dicts_by_key(values, key="name")` indexes a list of records by
  one of their fields. Each record is stored under its value for that field,
  with the field removed. A record that lacks the field raises a `KeyError`
  with a fixed message.
- `sort_list_of_dicts_by_key(values, key, reverse=False)` sorts records by one
  field with Python's stable `sorted`.
- `sort_dict(d, key_order=None)` reorders a mapping: keys named in
  `key_order` first, in that order, then the other keys in their original
  order.

The model, file by file:

- `wrappers.dfy`: `Option` and `Result`.
- `sequences.dfy` (module `Sequences`): `list.index` (`IndexOf`), `str.join`
  (`Join`), and `Dedup`, the distinct elements of a list in the order they
  first occur.
- `ordered_dict.dfy` (module `OrderedDict`): a Python `dict` as the sequence
  of its `(key, value)` entries in insertion order, with unique keys
  (`DistinctKeys`). Python dicts keep insertion order and the tests compare
  key order, so the model does not use Dafny's unordered `map`. `d[k] = v` is
  `SetItem`: an existing key keeps its place, a new key is appended. `d.pop(k)`
  on a copy is `Pop`, and `x[key]` on a record that has `key` is `Get`.
- `sorting.dfy` (module `Sorting`): Python's `sorted(s, key=..., reverse=...)`
  as a stable insertion sort over a key function and a strict total order
  `lt` on keys. The module proves that the result is a permutation, is
  ordered, and is stable. It also proves that these properties determine the
  result (`SortedUnique`), so the model does not depend on which stable sort
  CPython runs.
- `utils.dfy` (module `Utils`), the three functions:
  - `to_list_of_dicts_by_key` is the method `ToListOfDictsByKey`, written as
    the source's `for` loop that fills `result`. Its invariant ties it to
    `IndexedByKey`, the same computation written as a record-by-record fold.
    The lemmas characterise that fold: which entries it produces, in which
    order, and when and with which message it fails.
  - `sort_list_of_dicts_by_key` is the function `SortListOfDictsByKey`, which
    is `sorted` with the record's field as the key.
  - `sort_dict` is the function `SortDict`, which is `sorted` over the entries
    with `order.index(key)` as the key, where `order = key_order +
    other_keys`.
- `examples.dfy` (module `UtilsExamples`): the docstring examples and the
  cases of `tests/test_utils.py` as lemmas. Field values are `Scalar`, an
  `int` or a `str`, compared with Python's `<` (strings by code point).

## Model

| member | source | states |
|---|---|---|
| `Sequences.IndexOf` | src/fuso/utils.py:114 | `order.index(k)` is a position holding `k` exactly when `k` occurs in `order`; otherwise the result is `len(order)`. |
| `Sequences.IndexOfFirst` | src/fuso/utils.py:114 | No position before `order.index(k)` holds `k`: the index is that of the first occurrence. |
| `Sequences.DedupMembers` | src/fuso/utils.py:40 | The keys that repeated `result[k] = ...` leaves behind (`Dedup`) are exactly the keys assigned. |
| `Sequences.DedupFirstOccurrences` | src/fuso/utils.py:40 | Those keys occur once each, ordered by where each first occurs among the keys assigned. |
| `Sequences.JoinEnds` | src/fuso/utils.py:42 | `", ".join(keys)` is empty for no keys; otherwise it opens with the first key and closes with the last. |
| `Sequences.JoinSnoc` | src/fuso/utils.py:42 | Joining one more key appends the separator and that key, so the keys appear in order, separated by `, `. |
| `OrderedDict.KeysPositions` | src/fuso/utils.py:42 | `value.keys()` of a record lists each field once: the field of entry `i` is at position `i` and at no other position. |
| `OrderedDict.Get` | src/fuso/utils.py:78 | `x[key]` finds a value exactly when the key is present, and the key with that value is an entry of the record. |
| `OrderedDict.SetItem` | src/fuso/utils.py:40 | `result[k] = v` grows the dict by one entry exactly when `k` is new. |
| `OrderedDict.SetItemKeys` | src/fuso/utils.py:40 | `result[k] = v` leaves every key in place and appends `k` only when it is new. |
| `OrderedDict.SetItemGet` | src/fuso/utils.py:40 | After `result[k] = v`, `k` maps to `v` and every other key maps to what it did before. |
| `OrderedDict.SetItemDistinct` | src/fuso/utils.py:40 | `result[k] = v` keeps keys unique. |
| `OrderedDict.Pop` | src/fuso/utils.py:39 | `value_copy.pop(key)` succeeds exactly when the key is present; otherwise it raises `KeyError` (here `None`). |
| `OrderedDict.PopValue` | src/fuso/utils.py:39 | The popped value is the value stored under the key. |
| `OrderedDict.PopEntries` | src/fuso/utils.py:37-39 | The copy left after `pop` is the record without the key's entry; the other entries stay, in order. |
| `OrderedDict.PopRest` | src/fuso/utils.py:37-39 | The remaining copy has unique keys, lacks the popped key, and maps every other key as the record does. |
| `OrderedDict.PermutationKeepsEntries` | src/fuso/utils.py:114 | Reordering a dict's entries (`dict(sorted(d.items(), ...))`) keeps keys unique and keeps every key→value pair. |
| `Sorting.Sorted` | src/fuso/utils.py:78 | `sorted` returns a permutation of its input. |
| `Sorting.SortedOrdered` | src/fuso/utils.py:78 | `sorted` orders by the key function: non-decreasing, or non-increasing with `reverse`. |
| `Sorting.SortedStable` | src/fuso/utils.py:78 | `sorted` is stable: elements with equal keys keep their input order, also with `reverse`. |
| `Sorting.SortedUnique` | src/fuso/utils.py:78 | Any ordered arrangement that keeps equal keys in input order is the result of `sorted`. |
| `Sorting.SortedOfOrdered` | src/fuso/utils.py:114 | An input that is already ordered comes back unchanged. |
| `Utils.ToListOfDictsByKey` | src/fuso/utils.py:35-46 | The loop over `values`, which pops `key` from a copy of each record and stores the copy under the popped value, returns what the fold `IndexedByKey` computes. That is the same dict, or the same `KeyError` with no partial result. |
| `Utils.MissingKeyMessageShape` | src/fuso/utils.py:42-45 | The KeyError message starts with `Key '<key>` and ends with the record's fields, comma-joined in order. |
| `Utils.MissingKeyMessageSnoc` | src/fuso/utils.py:42-45 | Each further field of the record appends `, ` and its name to the message, so the fields are listed in record order. |
| `Utils.IndexedByKey` | src/fuso/utils.py:35-46 | The fold that the loop computes; on success it has at most one entry per record. |
| `Utils.FailureIsFinal` | src/fuso/utils.py:41-45 | Once a record fails, the error is final: later records change nothing and no dict is returned. |
| `Utils.IndexedByKeyEntries` | src/fuso/utils.py:35-40 | When every record has `key`, the call succeeds. The result has unique keys, one per distinct key value, in the order the values first appear in `values`. |
| `Utils.IndexedByKeyValues` | src/fuso/utils.py:37-40 | The entry for each key value is the last record with that value, with the key field popped: a later record replaces an earlier one. |
| `Utils.IndexedByKeyFails` | src/fuso/utils.py:38-45 | The call fails exactly when some record lacks `key`. |
| `Utils.IndexedByKeyFirstMissing` | src/fuso/utils.py:41-45 | It fails with `Key '<key>' not found in value. Available keys: <keys of the first record lacking it, comma-joined in order>`. |
| `Utils.SortListOfDictsByKey` | src/fuso/utils.py:49-78 | The result is a permutation of the records. |
| `Utils.FieldOfIsField` | src/fuso/utils.py:78 | `lambda x: x[key]` finds a value exactly on records that have `key`, and it is the value stored there. |
| `Utils.SortListOfDictsByKeyOrdered` | src/fuso/utils.py:78 | Every record of the result has `key`, and the result is non-decreasing in `x[key]`, or non-increasing with `reverse`. |
| `Utils.SortListOfDictsByKeyStable` | src/fuso/utils.py:78 | Records with equal `x[key]` keep their input order, in both directions. |
| `Utils.SortListOfDictsByKeyUnique` | src/fuso/utils.py:78 | An arrangement that is ordered by the field and stable is the result. |
| `Utils.OtherKeys` | src/fuso/utils.py:112 | `other_keys` holds only keys of `d` that are not in `key_order`, and all of them. |
| `Utils.SortDictNoKeyOrder` | src/fuso/utils.py:110-111 | `key_order=None` sorts every dict exactly as `key_order=[]` does. |
| `Utils.OtherKeysOrder` | src/fuso/utils.py:112 | The comprehension keeps the relative order of the keys it keeps. |
| `Utils.SortOrder` | src/fuso/utils.py:113 | `order = key_order + other_keys` contains every key of `d`, so `order.index` never fails. |
| `Utils.RankIsIndex` | src/fuso/utils.py:114 | `order.index(x[0])`, for an entry whose key is in `order`, is the first position of that key in `order`. |
| `Utils.SortDict` | src/fuso/utils.py:81-114 | The result is a permutation of `d`'s entries. |
| `Utils.SortDictEntries` | src/fuso/utils.py:112-114 | The result holds exactly the key→value pairs of `d`, with unique keys; nothing is added or dropped. |
| `Utils.SortDictRanks` | src/fuso/utils.py:113-114 | Along the result, the position of each key in `order` strictly increases. |
| `Utils.SortDictOrder` | src/fuso/utils.py:110-114 | Keys of `key_order` come before all other keys and follow `key_order`'s order. Keys of `key_order` absent from `d` are ignored. The other keys keep their relative order from `d`. |
| `Utils.SortDictUnchanged` | src/fuso/utils.py:110-114 | With `key_order` `None` or `[]`, the dict comes back unchanged. |
| `UtilsExamples.IndexedByKeyDocExample` | src/fuso/utils.py:21-32 | The Alice and Bob records, indexed by `name` and by `age`, give the documented dicts. |
| `UtilsExamples.IndexedByKeyTestDefaultKey` | tests/test_utils.py:7-15 | Indexing by `name`, passed explicitly to the fold, gives `{"item1": {"value": 10}, "item2": {"value": 20}}`. |
| `UtilsExamples.ToListOfDictsByKeyTestDefaultKey` | tests/test_utils.py:7-15 | The loop itself, called with the key argument omitted (default `name`), returns the test's expected dict. |
| `UtilsExamples.IndexedByKeyTestOtherKey` | tests/test_utils.py:18-26 | Indexing by `id` gives the same dict. |
| `UtilsExamples.IndexedByKeyTestMissingKey` | tests/test_utils.py:29-36 | A record without `name` fails with `Key 'name' not found in value. Available keys: value`. |
| `UtilsExamples.MissingTwoFieldsMessage` | src/fuso/utils.py:42-45 | For a record with fields `f1` and `f2`, the message ends `Available keys: f1, f2`. |
| `UtilsExamples.IndexedByKeyTestEmpty` | tests/test_utils.py:39-42 | No records give an empty dict. |
| `UtilsExamples.IndexedByKeyLaterRecordWins` | src/fuso/utils.py:40 | A repeated key value keeps its first place and holds the later record. |
| `UtilsExamples.SortListOfDictsByKeyDocExample` | src/fuso/utils.py:68-71 | Sorting by `age` puts Bob (25) before Alice (30). |
| `UtilsExamples.SortListOfDictsByKeyDocExampleReverse` | src/fuso/utils.py:72-75 | With `reverse=True`, Alice comes before Bob. |
| `UtilsExamples.SortListOfDictsByKeyTestCase` | tests/test_utils.py:75-82 | Sorting the records `b`, `a`, `c` by `name` gives `a`, `b`, `c`. |
| `UtilsExamples.SortDictDocExample` | src/fuso/utils.py:93-102 | `sort_dict({"b": 2, "a": 1, "c": 3}, key_order=["a", "b"])` is `{"a": 1, "b": 2, "c": 3}`. This is also the first case of tests/test_utils.py. |
| `UtilsExamples.SortDictDocExampleNoKeyOrder` | src/fuso/utils.py:103-107 | Without a key order the same dict comes back unchanged. |
| `UtilsExamples.SortDictTestPartialOrder` | tests/test_utils.py:53-57 | The key order `["z", "x"]` gives the keys `z`, `x`, `y`. |
| `UtilsExamples.SortDictTestEmptyOrder` | tests/test_utils.py:58-62 | The key order `[]` leaves `two`, `one`, `three` in place. |
| `UtilsExamples.SortDictTestFullOrder` | tests/test_utils.py:63-67 | The key order `["three", "two", "one"]` gives exactly that key order. |

## Left out

- src/fuso/__init__.py is not part of this model. It only re-exports names. It also imports `list_to_dict_by_key` from `utils.py`, which defines no such name (it defines `to_list_of_dicts_by_key`), so the package import as written would fail.
- The `merge` and `dotpath` modules are not part of this model; their source is not available. The scripts under `scripts/` are release and documentation plumbing (subprocesses, file I/O).
- Input records are not modified: this holds by construction. Records are Dafny sequences, which are values, so `ToListOfDictsByKey` cannot change them. `value.copy()` is the value itself. The model does not capture that the copy is shallow and shares nested objects with the input.
- `Utils.SortListOfDictsByKey` requires every record to have `key`. On a record without it, Python raises a bare `KeyError` from the key lambda with no crafted message, and that path is not modelled.
- `Utils.SortListOfDictsByKeyOrdered`, `Utils.SortListOfDictsByKeyStable` and `Utils.SortListOfDictsByKeyUnique` require `lt`, the `<` of the field values, to be a strict total order. Python compares heterogeneous values with `TypeError` or with orders that are not total (`float('nan')`); neither is modelled. `UtilsExamples.ScalarLess` orders integers before strings only to keep the examples' order total.
- Field names are modelled as strings (`Record<V>` maps `string` to `V`). Python records may have non-`str` field names. If the first record lacking `key` has one, `", ".join(value.keys())` raises `TypeError` instead of the crafted `KeyError`, so `IndexedByKeyFails` and `IndexedByKeyFirstMissing` describe records with string field names only.
- Key values are compared with Dafny equality. Python's hashing and cross-type equality (`1 == True == 1.0`) are not modelled, and neither is the `TypeError` for an unhashable key value.
- `Sequences.IndexOf` returns the length of the list where `list.index` raises `ValueError`. `sort_dict` never reaches that case, because `Utils.SortOrder` contains every key of `d`.
- The model keeps the `KeyError`'s message string. Python's rendering of a `KeyError` (`str()` adds quotes) is not modelled.
