/** The worked examples of `fuso.utils`' docstrings and unit tests, over
    records whose field values are strings or integers. */
module UtilsExamples {
  import opened Wrappers
  import opened Sequences
  import opened OrderedDict
  import opened Sorting
  import opened Utils

  /** A field value: a Python `int` or `str`. */
  datatype Scalar = Int(i: int) | Str(s: string)

  /** Python's `<` on strings: lexicographic by code point. */
  predicate StrLess(a: string, b: string)
  {
    if a == [] then b != []
    else if b == [] then false
    else if a[0] != b[0] then a[0] < b[0]
    else StrLess(a[1..], b[1..])
  }

  /** `<` on field values: integers by value, strings lexicographically.
      Python refuses to compare an `int` with a `str`; here integers come
      first so that the order is total. */
  predicate ScalarLess(a: Scalar, b: Scalar)
  {
    if a.Int? && b.Int? then a.i < b.i
    else if a.Str? && b.Str? then StrLess(a.s, b.s)
    else a.Int? && b.Str?
  }

  lemma {:induction false} StrLessIrreflexive(a: string)
    ensures !StrLess(a, a)
  {
    if a != [] {
      StrLessIrreflexive(a[1..]);
    }
  }

  lemma {:induction false} StrLessTransitive(a: string, b: string, c: string)
    requires StrLess(a, b) && StrLess(b, c)
    ensures StrLess(a, c)
  {
    if a != [] && a[0] == b[0] && b[0] == c[0] {
      StrLessTransitive(a[1..], b[1..], c[1..]);
    }
  }

  lemma {:induction false} StrLessTotal(a: string, b: string)
    requires a != b
    ensures StrLess(a, b) || StrLess(b, a)
  {
    if a != [] && b != [] && a[0] == b[0] {
      assert a == [a[0]] + a[1..] && b == [b[0]] + b[1..];
      StrLessTotal(a[1..], b[1..]);
    }
  }

  /** `ScalarLess` meets what the sorting lemmas ask of `<`. */
  lemma ScalarLessOrder()
    ensures StrictTotalOrder(ScalarLess)
  {
    forall a, b, c
      ensures OrderLaws(ScalarLess, a, b, c)
    {
      if a.Str? {
        StrLessIrreflexive(a.s);
      }
      if a.Str? && b.Str? && c.Str? && StrLess(a.s, b.s) && StrLess(b.s, c.s) {
        StrLessTransitive(a.s, b.s, c.s);
      }
      if a.Str? && b.Str? && a.s != b.s {
        StrLessTotal(a.s, b.s);
      }
    }
  }

  // ---------------------------------------------------------------------
  // to_list_of_dicts_by_key

  function Alice(): Record<Scalar> { [("name", Str("Alice")), ("age", Int(30))] }
  function Bob(): Record<Scalar> { [("name", Str("Bob")), ("age", Int(25))] }

  /** A record of two fields, popped at either field or at neither. */
  lemma PopPair<V>(k1: string, v1: V, k2: string, v2: V, k: string)
    requires k1 != k2
    ensures Pop([(k1, v1), (k2, v2)], k1) == Some((v1, [(k2, v2)]))
    ensures Pop([(k1, v1), (k2, v2)], k2) == Some((v2, [(k1, v1)]))
    ensures k != k1 && k != k2 ==> Pop([(k1, v1), (k2, v2)], k) == None
  {
    var d := [(k1, v1), (k2, v2)];
    assert d[1..] == [(k2, v2)];
    assert [(k2, v2)][1..] == [];
    assert [(k1, v1)] + [] == [(k1, v1)];
  }

  /** One more record: the definition of `IndexedByKey` read forwards. */
  lemma IndexedByKeySnoc<V>(values: seq<Record<V>>, value: Record<V>, key: string)
    ensures IndexedByKey(values + [value], key) ==
      if IndexedByKey(values, key).Failure? then IndexedByKey(values, key)
      else if Pop(value, key).None? then Failure(KeyError(MissingKeyMessage(key, value)))
      else Success(SetItem(IndexedByKey(values, key).value, Pop(value, key).value.0, Pop(value, key).value.1))
  {
    assert (values + [value])[..|values|] == values;
  }

  /** Two records with different key values give two entries, in order. */
  lemma IndexedByKeyTwo<V>(a: Record<V>, b: Record<V>, key: string, ka: V, ra: Record<V>, kb: V, rb: Record<V>)
    requires Pop(a, key) == Some((ka, ra)) && Pop(b, key) == Some((kb, rb))
    requires ka != kb
    ensures IndexedByKey([a, b], key) == Success([(ka, ra), (kb, rb)])
  {
    IndexedByKeySnoc([], a, key);
    assert [] + [a] == [a];
    assert IndexedByKey([a], key) == Success(SetItem([], ka, ra));
    assert SetItem([], ka, ra) == [(ka, ra)];
    IndexedByKeySnoc([a], b, key);
    assert [a] + [b] == [a, b];
    assert IndexedByKey([a, b], key) == Success(SetItem([(ka, ra)], kb, rb));
    assert [(ka, ra)][1..] == [];
    assert SetItem([(ka, ra)], kb, rb) == [(ka, ra)] + [(kb, rb)] == [(ka, ra), (kb, rb)];
  }

  /** The docstring example, indexed by name and by age. */
  lemma IndexedByKeyDocExample()
    ensures IndexedByKey([Alice(), Bob()], "name") ==
      Success([(Str("Alice"), [("age", Int(30))]), (Str("Bob"), [("age", Int(25))])])
    ensures IndexedByKey([Alice(), Bob()], "age") ==
      Success([(Int(30), [("name", Str("Alice"))]), (Int(25), [("name", Str("Bob"))])])
  {
    PopPair("name", Str("Alice"), "age", Int(30), "");
    PopPair("name", Str("Bob"), "age", Int(25), "");
    IndexedByKeyTwo(Alice(), Bob(), "name", Str("Alice"), [("age", Int(30))], Str("Bob"), [("age", Int(25))]);
    IndexedByKeyTwo(Alice(), Bob(), "age", Int(30), [("name", Str("Alice"))], Int(25), [("name", Str("Bob"))]);
  }

  /** The unit test with the default key `name`, passed explicitly. */
  lemma IndexedByKeyTestDefaultKey()
    ensures IndexedByKey([[("name", Str("item1")), ("value", Int(10))], [("name", Str("item2")), ("value", Int(20))]], "name") ==
      Success([(Str("item1"), [("value", Int(10))]), (Str("item2"), [("value", Int(20))])])
  {
    PopPair("name", Str("item1"), "value", Int(10), "");
    PopPair("name", Str("item2"), "value", Int(20), "");
    IndexedByKeyTwo([("name", Str("item1")), ("value", Int(10))], [("name", Str("item2")), ("value", Int(20))], "name",
      Str("item1"), [("value", Int(10))], Str("item2"), [("value", Int(20))]);
  }

  /** The same unit test through `to_list_of_dicts_by_key` itself, with the
      key argument left at its default. */
  method ToListOfDictsByKeyTestDefaultKey() returns (r: Result<Dict<Scalar, Record<Scalar>>, KeyError>)
    ensures r == Success([(Str("item1"), [("value", Int(10))]), (Str("item2"), [("value", Int(20))])])
  {
    r := ToListOfDictsByKey([[("name", Str("item1")), ("value", Int(10))], [("name", Str("item2")), ("value", Int(20))]]);
    IndexedByKeyTestDefaultKey();
  }

  /** The unit test with the key `id`. */
  lemma IndexedByKeyTestOtherKey()
    ensures IndexedByKey([[("id", Str("item1")), ("value", Int(10))], [("id", Str("item2")), ("value", Int(20))]], "id") ==
      Success([(Str("item1"), [("value", Int(10))]), (Str("item2"), [("value", Int(20))])])
  {
    PopPair("id", Str("item1"), "value", Int(10), "");
    PopPair("id", Str("item2"), "value", Int(20), "");
    IndexedByKeyTwo([("id", Str("item1")), ("value", Int(10))], [("id", Str("item2")), ("value", Int(20))], "id",
      Str("item1"), [("value", Int(10))], Str("item2"), [("value", Int(20))]);
  }

  /** The unit test whose second record lacks `name`: the KeyError names the
      record's only field. */
  lemma IndexedByKeyTestMissingKey()
    ensures IndexedByKey([[("name", Str("item1")), ("value", Int(10))], [("value", Int(20))]], "name") ==
      Failure(KeyError("Key 'name' not found in value. Available keys: value"))
  {
    MissingSecondRecord();
    MissingValueMessage();
  }

  /** The second record of that test is the first to lack `name`. */
  lemma MissingSecondRecord()
    ensures IndexedByKey([[("name", Str("item1")), ("value", Int(10))], [("value", Int(20))]], "name") ==
      Failure(KeyError(MissingKeyMessage("name", [("value", Int(20))])))
  {
  }

  /** The message's text up to the field list, for the field `name`. */
  lemma NameMessage(fields: string)
    ensures "Key '" + "name" + "' not found in value. Available keys: " + fields
      == "Key 'name' not found in value. Available keys: " + fields
  {
    assert "Key '" + "name" == "Key 'name";
    NameMessageText();
  }

  lemma NameMessageText()
    ensures "Key 'name" + "' not found in value. Available keys: " == "Key 'name' not found in value. Available keys: "
  {
  }

  /** The message the unit test matches, for a record whose only field is
      `value`. */
  lemma MissingValueMessage()
    ensures MissingKeyMessage("name", [("value", Int(20))]) == "Key 'name' not found in value. Available keys: value"
  {
    assert Keys([("value", Int(20))]) == ["value"];
    NameMessage("value");
  }

  /** A record of two fields lists both, comma-separated, in its order. */
  lemma MissingTwoFieldsMessage(f1: string, f2: string)
    ensures MissingKeyMessage("name", [(f1, Int(1)), (f2, Int(2))])
      == "Key 'name' not found in value. Available keys: " + (f1 + ", " + f2)
  {
    assert Keys([(f1, Int(1)), (f2, Int(2))]) == [f1] + [f2];
    JoinSnoc([f1], f2, ", ");
    NameMessage(f1 + ", " + f2);
  }

  /** The unit test with no records. */
  lemma IndexedByKeyTestEmpty()
    ensures IndexedByKey<Scalar>([], "name") == Success([])
  {
  }

  /** A repeated key value keeps its first place and takes the last record. */
  lemma IndexedByKeyLaterRecordWins()
    ensures IndexedByKey([[("k", Int(1)), ("v", Int(1))], [("k", Int(2)), ("v", Int(2))], [("k", Int(1)), ("v", Int(3))]], "k") ==
      Success([(Int(1), [("v", Int(3))]), (Int(2), [("v", Int(2))])])
  {
    var a: Record<Scalar> := [("k", Int(1)), ("v", Int(1))];
    var b: Record<Scalar> := [("k", Int(2)), ("v", Int(2))];
    var c: Record<Scalar> := [("k", Int(1)), ("v", Int(3))];
    PopPair("k", Int(1), "v", Int(1), "");
    PopPair("k", Int(2), "v", Int(2), "");
    PopPair("k", Int(1), "v", Int(3), "");
    IndexedByKeyTwo(a, b, "k", Int(1), [("v", Int(1))], Int(2), [("v", Int(2))]);
    IndexedByKeySnoc([a, b], c, "k");
    assert [a, b] + [c] == [a, b, c];
    assert SetItem([(Int(1), [("v", Int(1))]), (Int(2), [("v", Int(2))])], Int(1), [("v", Int(3))])
      == [(Int(1), [("v", Int(3))]), (Int(2), [("v", Int(2))])];
  }

  // ---------------------------------------------------------------------
  // sort_list_of_dicts_by_key

  /** Sorting two elements swaps them exactly when the second must come
      first. */
  lemma SortedTwo<T, U>(x: T, y: T, key: T -> U, lt: (U, U) -> bool, reverse: bool)
    ensures Sorted([x, y], key, lt, reverse) == if Precedes(key, lt, reverse, y, x) then [y, x] else [x, y]
  {
    assert [x, y][1..] == [y];
    assert Sorted([y], key, lt, reverse) == [y] by {
      assert [y][1..] == [];
    }
    InsertOne(x, y, key, lt, reverse);
  }

  /** Sorting three elements inserts the first into the sorted other two. */
  lemma SortedThree<T, U>(x: T, y: T, z: T, key: T -> U, lt: (U, U) -> bool, reverse: bool)
    ensures Sorted([x, y, z], key, lt, reverse) == Insert(x, Sorted([y, z], key, lt, reverse), key, lt, reverse)
  {
  }

  /** Inserting into two elements, past the first. */
  lemma InsertPastFirst<T, U>(x: T, y: T, z: T, key: T -> U, lt: (U, U) -> bool, reverse: bool)
    requires Precedes(key, lt, reverse, y, x)
    ensures Insert(x, [y, z], key, lt, reverse) == [y] + Insert(x, [z], key, lt, reverse)
  {
  }

  /** Inserting into one element. */
  lemma InsertOne<T, U>(x: T, z: T, key: T -> U, lt: (U, U) -> bool, reverse: bool)
    ensures Insert(x, [z], key, lt, reverse) == if Precedes(key, lt, reverse, z, x) then [z, x] else [x, z]
  {
  }

  /** Sorting three elements whose order is the second, the first, the
      third. */
  lemma SortedMiddleFirst<T, U>(x: T, y: T, z: T, key: T -> U, lt: (U, U) -> bool, reverse: bool)
    requires Precedes(key, lt, reverse, y, x) && !Precedes(key, lt, reverse, z, y) && !Precedes(key, lt, reverse, z, x)
    ensures Sorted([x, y, z], key, lt, reverse) == [y, x, z]
  {
    SortedThree(x, y, z, key, lt, reverse);
    SortedTwo(y, z, key, lt, reverse);
    InsertPastFirst(x, y, z, key, lt, reverse);
    InsertOne(x, z, key, lt, reverse);
  }

  /** Sorting three elements whose order is the third, the first, the
      second. */
  lemma SortedLastFirst<T, U>(x: T, y: T, z: T, key: T -> U, lt: (U, U) -> bool, reverse: bool)
    requires Precedes(key, lt, reverse, z, y) && Precedes(key, lt, reverse, z, x) && !Precedes(key, lt, reverse, y, x)
    ensures Sorted([x, y, z], key, lt, reverse) == [z, x, y]
  {
    SortedThree(x, y, z, key, lt, reverse);
    SortedTwo(y, z, key, lt, reverse);
    InsertPastFirst(x, z, y, key, lt, reverse);
    InsertOne(x, y, key, lt, reverse);
  }

  /** The fields the sort examples sort by. */
  lemma SortFields()
    ensures FieldOf("age")(Alice()) == Some(Int(30)) && FieldOf("age")(Bob()) == Some(Int(25))
    ensures FieldOf("name")(Item("b", 2)) == Some(Str("b"))
    ensures FieldOf("name")(Item("a", 1)) == Some(Str("a"))
    ensures FieldOf("name")(Item("c", 3)) == Some(Str("c"))
  {
  }

  /** On present fields the lifted order is `lt`. */
  lemma OptionLessSome<V>(lt: (V, V) -> bool, a: V, b: V)
    ensures OptionLess(lt)(Some(a), Some(b)) == lt(a, b)
  {
  }

  /** Bob is younger than Alice. */
  lemma AgeOrder()
    ensures Precedes(FieldOf("age"), OptionLess(ScalarLess), false, Bob(), Alice())
    ensures !Precedes(FieldOf("age"), OptionLess(ScalarLess), true, Bob(), Alice())
  {
    SortFields();
    OptionLessSome(ScalarLess, Int(25), Int(30));
    OptionLessSome(ScalarLess, Int(30), Int(25));
  }

  /** The docstring example: by age, ascending. */
  lemma SortListOfDictsByKeyDocExample()
    ensures AllHaveKey([Alice(), Bob()], "age")
      && SortListOfDictsByKey([Alice(), Bob()], "age", ScalarLess) == [Bob(), Alice()]
  {
    SortFields();
    AgeOrder();
    SortedTwo(Alice(), Bob(), FieldOf("age"), OptionLess(ScalarLess), false);
  }

  /** The docstring example: by age, descending. */
  lemma SortListOfDictsByKeyDocExampleReverse()
    ensures AllHaveKey([Alice(), Bob()], "age")
      && SortListOfDictsByKey([Alice(), Bob()], "age", ScalarLess, true) == [Alice(), Bob()]
  {
    SortFields();
    AgeOrder();
    SortedTwo(Alice(), Bob(), FieldOf("age"), OptionLess(ScalarLess), true);
  }

  function Item(name: string, value: int): Record<Scalar> { [("name", Str(name)), ("value", Int(value))] }

  /** The unit test: sorting by name. */
  lemma SortListOfDictsByKeyTestCase()
    ensures AllHaveKey([Item("b", 2), Item("a", 1), Item("c", 3)], "name")
      && SortListOfDictsByKey([Item("b", 2), Item("a", 1), Item("c", 3)], "name", ScalarLess)
         == [Item("a", 1), Item("b", 2), Item("c", 3)]
  {
    ItemsHaveName();
    NameOrder();
    SortedMiddleFirst(Item("b", 2), Item("a", 1), Item("c", 3), FieldOf("name"), OptionLess(ScalarLess), false);
  }

  lemma ItemsHaveName()
    ensures AllHaveKey([Item("b", 2), Item("a", 1), Item("c", 3)], "name")
  {
    SortFields();
  }

  /** The names of the unit test, compared. */
  lemma NameOrder()
    ensures Precedes(FieldOf("name"), OptionLess(ScalarLess), false, Item("a", 1), Item("b", 2))
    ensures !Precedes(FieldOf("name"), OptionLess(ScalarLess), false, Item("c", 3), Item("a", 1))
    ensures !Precedes(FieldOf("name"), OptionLess(ScalarLess), false, Item("c", 3), Item("b", 2))
  {
    SortFields();
    OptionLessSome(ScalarLess, Str("a"), Str("b"));
    OptionLessSome(ScalarLess, Str("c"), Str("a"));
    OptionLessSome(ScalarLess, Str("c"), Str("b"));
    assert StrLess("a", "b") && !StrLess("c", "a") && !StrLess("c", "b");
  }

  // ---------------------------------------------------------------------
  // sort_dict

  function Bac(): Dict<string, int> { [("b", 2), ("a", 1), ("c", 3)] }

  /** The order the docstring example sorts by: `["a", "b"] + ["c"]`. */
  lemma DocSortOrder()
    ensures SortOrder(Bac(), ["a", "b"]) == ["a", "b", "c"]
  {
  }

  /** The docstring example with the key order `["a", "b"]`. */
  lemma SortDictDocExample()
    ensures SortDict(Bac(), Some(["a", "b"])) == [("a", 1), ("b", 2), ("c", 3)]
  {
    DocSortOrder();
    var order := ["a", "b", "c"];
    assert IndexOf(order, "a") == 0 && IndexOf(order, "b") == 1 && IndexOf(order, "c") == 2;
    SortedMiddleFirst(("b", 2), ("a", 1), ("c", 3), Rank(order), IntLess, false);
  }

  /** The docstring example without a key order: the dict is unchanged. */
  lemma SortDictDocExampleNoKeyOrder()
    ensures SortDict(Bac()) == Bac()
  {
    SortDictUnchanged(Bac(), None);
  }

  function TwoOneThree(): Dict<string, int> { [("two", 2), ("one", 1), ("three", 3)] }

  /** The third unit test: an empty key order leaves the dict unchanged. */
  lemma SortDictTestEmptyOrder()
    ensures SortDict(TwoOneThree(), Some([])) == TwoOneThree()
  {
    SortDictUnchanged(TwoOneThree(), Some([]));
  }

  /** The order of the second unit test: `["z", "x"] + ["y"]`. */
  lemma PartialSortOrder()
    ensures SortOrder([("x", 24), ("y", 25), ("z", 26)], ["z", "x"]) == ["z", "x", "y"]
  {
  }

  /** The second unit test: `["z", "x"]` puts `z` first and leaves `y` last. */
  lemma SortDictTestPartialOrder()
    ensures SortDict([("x", 24), ("y", 25), ("z", 26)], Some(["z", "x"])) == [("z", 26), ("x", 24), ("y", 25)]
  {
    PartialSortOrder();
    var order := ["z", "x", "y"];
    assert IndexOf(order, "z") == 0 && IndexOf(order, "x") == 1 && IndexOf(order, "y") == 2;
    SortedLastFirst(("x", 24), ("y", 25), ("z", 26), Rank(order), IntLess, false);
  }

  /** The order of the fourth unit test: the key order alone. */
  lemma FullSortOrder()
    ensures SortOrder(TwoOneThree(), ["three", "two", "one"]) == ["three", "two", "one"]
  {
  }

  /** The fourth unit test: a key order naming every key decides the whole
      order. */
  lemma SortDictTestFullOrder()
    ensures SortDict(TwoOneThree(), Some(["three", "two", "one"])) == [("three", 3), ("two", 2), ("one", 1)]
  {
    FullSortOrder();
    var order := ["three", "two", "one"];
    assert IndexOf(order, "three") == 0 && IndexOf(order, "two") == 1 && IndexOf(order, "one") == 2;
    SortedLastFirst(("two", 2), ("one", 1), ("three", 3), Rank(order), IntLess, false);
  }
}
