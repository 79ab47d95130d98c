/** Python's built-in `sorted(iterable, key=..., reverse=...)`: a stable sort
    by a key function, ascending or, with `reverse`, descending, where equal
    keys keep their input order in both directions. It is modelled as an
    insertion sort; `SortedUnique` shows that every stable sort gives the
    same result, so the algorithm CPython uses does not matter. */
module Sorting {

  /** What `sorted` needs of `<` on the keys: a strict total order. The laws
      are stated of every triple through `OrderLaws`, so that the solver uses
      them only where a proof names the triple. */
  ghost predicate StrictTotalOrder<U(!new)>(lt: (U, U) -> bool)
  {
    forall a, b, c :: OrderLaws(lt, a, b, c)
  }

  /** Irreflexive, transitive and total, at `a`, `b` and `c`. */
  ghost predicate OrderLaws<U>(lt: (U, U) -> bool, a: U, b: U, c: U)
  {
    && !lt(a, a)
    && (lt(a, b) && lt(b, c) ==> lt(a, c))
    && (a != b ==> lt(a, b) || lt(b, a))
  }

  /** `x` must come strictly before `y` in the output. */
  predicate Precedes<T, U>(key: T -> U, lt: (U, U) -> bool, reverse: bool, x: T, y: T)
  {
    if reverse then lt(key(y), key(x)) else lt(key(x), key(y))
  }

  /** No element must come strictly before one that is to its left. */
  ghost predicate Ordered<T, U>(s: seq<T>, key: T -> U, lt: (U, U) -> bool, reverse: bool)
  {
    forall i, j :: 0 <= i < j < |s| ==> !Precedes(key, lt, reverse, s[j], s[i])
  }

  /** The elements of `s` whose key is `u`, in their order in `s`. */
  function WithKey<T, U(==)>(s: seq<T>, key: T -> U, u: U): (r: seq<T>)
    ensures |r| <= |s|
  {
    if s == [] then []
    else (if key(s[0]) == u then [s[0]] else []) + WithKey(s[1..], key, u)
  }

  /** Places `x` before the first element of the ordered `s` that need not
      come before it. */
  function Insert<T, U>(x: T, s: seq<T>, key: T -> U, lt: (U, U) -> bool, reverse: bool): (r: seq<T>)
    ensures multiset(r) == multiset(s) + multiset{x}
  {
    if s == [] || !Precedes(key, lt, reverse, s[0], x) then [x] + s
    else
      assert s == [s[0]] + s[1..];
      [s[0]] + Insert(x, s[1..], key, lt, reverse)
  }

  /** `sorted(s, key=key, reverse=reverse)`; the result is a permutation of
      `s`. */
  function Sorted<T, U>(s: seq<T>, key: T -> U, lt: (U, U) -> bool, reverse: bool := false): (r: seq<T>)
    ensures multiset(r) == multiset(s)
    ensures |r| == |s|
  {
    if s == [] then []
    else
      assert s == [s[0]] + s[1..];
      Insert(s[0], Sorted(s[1..], key, lt, reverse), key, lt, reverse)
  }

  /** Under a strict total order, "need not come before" is transitive. */
  lemma NotPrecedesTransitive<T, U(!new)>(key: T -> U, lt: (U, U) -> bool, reverse: bool, x: T, y: T, z: T)
    requires StrictTotalOrder(lt)
    requires !Precedes(key, lt, reverse, x, y) && !Precedes(key, lt, reverse, y, z)
    ensures !Precedes(key, lt, reverse, x, z)
  {
    assert OrderLaws(lt, key(x), key(y), key(z));
    assert OrderLaws(lt, key(x), key(z), key(y));
    assert OrderLaws(lt, key(z), key(x), key(y));
    assert OrderLaws(lt, key(y), key(z), key(x));
    assert OrderLaws(lt, key(z), key(y), key(x));
  }

  /** Elements with the same key need not come before each other. */
  lemma SameKeyNotPrecedes<T, U(!new)>(key: T -> U, lt: (U, U) -> bool, reverse: bool, x: T, y: T)
    requires StrictTotalOrder(lt)
    requires key(x) == key(y)
    ensures !Precedes(key, lt, reverse, x, y)
  {
    assert OrderLaws(lt, key(x), key(x), key(x));
  }

  /** Elements with different keys: one of them must come first. */
  lemma DifferentKeysPrecede<T, U(!new)>(key: T -> U, lt: (U, U) -> bool, reverse: bool, x: T, y: T)
    requires StrictTotalOrder(lt)
    requires key(x) != key(y)
    ensures Precedes(key, lt, reverse, x, y) || Precedes(key, lt, reverse, y, x)
  {
    assert OrderLaws(lt, key(x), key(y), key(y));
  }

  /** Elements that must come first need not come after. */
  lemma PrecedesAsymmetric<T, U(!new)>(key: T -> U, lt: (U, U) -> bool, reverse: bool, x: T, y: T)
    requires StrictTotalOrder(lt)
    requires Precedes(key, lt, reverse, x, y)
    ensures !Precedes(key, lt, reverse, y, x)
  {
    assert OrderLaws(lt, key(x), key(y), key(x));
    assert OrderLaws(lt, key(y), key(x), key(y));
  }

  lemma {:induction false} InsertOrdered<T, U(!new)>(x: T, s: seq<T>, key: T -> U, lt: (U, U) -> bool, reverse: bool)
    requires StrictTotalOrder(lt)
    requires Ordered(s, key, lt, reverse)
    ensures Ordered(Insert(x, s, key, lt, reverse), key, lt, reverse)
  {
    var r := Insert(x, s, key, lt, reverse);
    if s == [] {
    } else if !Precedes(key, lt, reverse, s[0], x) {
      forall j | 0 <= j < |s|
        ensures !Precedes(key, lt, reverse, s[j], x)
      {
        if j > 0 {
          NotPrecedesTransitive(key, lt, reverse, s[j], s[0], x);
        }
      }
    } else {
      var t := Insert(x, s[1..], key, lt, reverse);
      InsertOrdered(x, s[1..], key, lt, reverse);
      assert r == [s[0]] + t;
      forall j | 0 <= j < |t|
        ensures !Precedes(key, lt, reverse, t[j], s[0])
      {
        assert t[j] in multiset(t);
        if t[j] != x {
          assert t[j] in s[1..];
        } else {
          PrecedesAsymmetric(key, lt, reverse, s[0], x);
        }
      }
    }
  }

  /** `WithKey` keeps exactly the elements with key `u`. */
  lemma {:induction false} WithKeyMembers<T, U>(s: seq<T>, key: T -> U, u: U, x: T)
    ensures x in WithKey(s, key, u) <==> x in s && key(x) == u
  {
    if s != [] {
      WithKeyMembers(s[1..], key, u, x);
      assert s == [s[0]] + s[1..];
    }
  }

  lemma WithKeyCons<T, U>(a: T, t: seq<T>, key: T -> U, u: U)
    ensures WithKey([a] + t, key, u) == (if key(a) == u then [a] else []) + WithKey(t, key, u)
  {
    assert ([a] + t)[1..] == t;
  }

  /** Elements whose key is not `u` never move across one whose key is. */
  lemma {:induction false} InsertWithKey<T, U(!new)>(x: T, s: seq<T>, key: T -> U, lt: (U, U) -> bool, reverse: bool, u: U)
    requires StrictTotalOrder(lt)
    ensures WithKey(Insert(x, s, key, lt, reverse), key, u) ==
      if key(x) == u then [x] + WithKey(s, key, u) else WithKey(s, key, u)
  {
    if s == [] || !Precedes(key, lt, reverse, s[0], x) {
      WithKeyCons(x, s, key, u);
    } else {
      var t := Insert(x, s[1..], key, lt, reverse);
      InsertWithKey(x, s[1..], key, lt, reverse, u);
      WithKeyCons(s[0], t, key, u);
      WithKeyCons(s[0], s[1..], key, u);
      assert [s[0]] + s[1..] == s;
      if key(x) == u && key(s[0]) == u {
        SameKeyNotPrecedes(key, lt, reverse, s[0], x);
      }
    }
  }

  /** The result of `sorted` is in order. */
  lemma {:induction false} SortedOrdered<T, U(!new)>(s: seq<T>, key: T -> U, lt: (U, U) -> bool, reverse: bool)
    requires StrictTotalOrder(lt)
    ensures Ordered(Sorted(s, key, lt, reverse), key, lt, reverse)
  {
    if s != [] {
      SortedOrdered(s[1..], key, lt, reverse);
      InsertOrdered(s[0], Sorted(s[1..], key, lt, reverse), key, lt, reverse);
    }
  }

  /** `sorted` is stable: the elements with any one key keep their input
      order. */
  lemma {:induction false} SortedStable<T, U(!new)>(s: seq<T>, key: T -> U, lt: (U, U) -> bool, reverse: bool, u: U)
    requires StrictTotalOrder(lt)
    ensures WithKey(Sorted(s, key, lt, reverse), key, u) == WithKey(s, key, u)
  {
    if s != [] {
      SortedStable(s[1..], key, lt, reverse, u);
      InsertWithKey(s[0], Sorted(s[1..], key, lt, reverse), key, lt, reverse, u);
    }
  }

  /** Two ordered sequences that agree on the elements of every key, in
      order, are equal. */
  lemma {:induction false} OrderedUnique<T, U(!new)>(t1: seq<T>, t2: seq<T>, key: T -> U, lt: (U, U) -> bool, reverse: bool)
    requires StrictTotalOrder(lt)
    requires Ordered(t1, key, lt, reverse) && Ordered(t2, key, lt, reverse)
    requires forall u :: WithKey(t1, key, u) == WithKey(t2, key, u)
    ensures t1 == t2
  {
    if t1 == [] || t2 == [] {
      var t := if t1 == [] then t2 else t1;
      if t != [] {
        WithKeyMembers(t, key, key(t[0]), t[0]);
        assert false;
      }
    } else {
      var a := key(t1[0]);
      if a != key(t2[0]) {
        HeadsAgree(t1, t2, key, lt, reverse);
      }
      WithKeyCons(t1[0], t1[1..], key, a);
      WithKeyCons(t2[0], t2[1..], key, a);
      assert [t1[0]] + t1[1..] == t1 && [t2[0]] + t2[1..] == t2;
      var w1, w2 := WithKey(t1[1..], key, a), WithKey(t2[1..], key, a);
      assert [t1[0]] + w1 == [t2[0]] + w2;
      assert t1[0] == ([t1[0]] + w1)[0] == ([t2[0]] + w2)[0] == t2[0];
      assert w1 == ([t1[0]] + w1)[1..] == ([t2[0]] + w2)[1..] == w2;
      forall u
        ensures WithKey(t1[1..], key, u) == WithKey(t2[1..], key, u)
      {
        if u != a {
          WithKeyCons(t1[0], t1[1..], key, u);
          WithKeyCons(t2[0], t2[1..], key, u);
          assert WithKey(t1, key, u) == WithKey(t2, key, u);
          assert WithKey(t1, key, u) == WithKey(t1[1..], key, u);
          assert WithKey(t2, key, u) == WithKey(t2[1..], key, u);
        }
      }
      OrderedUnique(t1[1..], t2[1..], key, lt, reverse);
    }
  }

  /** Two such sequences start with elements of the same key. */
  lemma HeadsAgree<T, U(!new)>(t1: seq<T>, t2: seq<T>, key: T -> U, lt: (U, U) -> bool, reverse: bool)
    requires StrictTotalOrder(lt)
    requires t1 != [] && t2 != []
    requires Ordered(t1, key, lt, reverse) && Ordered(t2, key, lt, reverse)
    requires forall u :: WithKey(t1, key, u) == WithKey(t2, key, u)
    ensures key(t1[0]) == key(t2[0])
  {
    var a, b := key(t1[0]), key(t2[0]);
    if a != b {
      WithKeyMembers(t1, key, a, t1[0]);
      WithKeyMembers(t2, key, a, t1[0]);
      WithKeyMembers(t2, key, b, t2[0]);
      WithKeyMembers(t1, key, b, t2[0]);
      assert WithKey(t1, key, a) == WithKey(t2, key, a);
      assert WithKey(t1, key, b) == WithKey(t2, key, b);
      var i :| 0 <= i < |t2| && t2[i] == t1[0];
      var j :| 0 <= j < |t1| && t1[j] == t2[0];
      assert !Precedes(key, lt, reverse, t2[i], t2[0]);
      assert !Precedes(key, lt, reverse, t1[j], t1[0]);
      DifferentKeysPrecede(key, lt, reverse, t1[0], t2[0]);
      assert false;
    }
  }

  /** Every ordered arrangement of `s` that keeps the elements of each key in
      their input order is `sorted(s)`: any stable sort gives this result. */
  lemma SortedUnique<T, U(!new)>(s: seq<T>, t: seq<T>, key: T -> U, lt: (U, U) -> bool, reverse: bool)
    requires StrictTotalOrder(lt)
    requires Ordered(t, key, lt, reverse)
    requires forall u :: WithKey(t, key, u) == WithKey(s, key, u)
    ensures t == Sorted(s, key, lt, reverse)
  {
    SortedOrdered(s, key, lt, reverse);
    forall u
      ensures WithKey(t, key, u) == WithKey(Sorted(s, key, lt, reverse), key, u)
    {
      SortedStable(s, key, lt, reverse, u);
    }
    OrderedUnique(t, Sorted(s, key, lt, reverse), key, lt, reverse);
  }

  /** Sorting what is already in order changes nothing. */
  lemma SortedOfOrdered<T, U(!new)>(s: seq<T>, key: T -> U, lt: (U, U) -> bool, reverse: bool)
    requires StrictTotalOrder(lt)
    requires Ordered(s, key, lt, reverse)
    ensures Sorted(s, key, lt, reverse) == s
  {
    SortedUnique(s, s, key, lt, reverse);
  }
}
