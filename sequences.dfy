/** Python list helpers the utilities rely on: `list.index`, the
    first-occurrence order of a list's distinct elements, and `str.join`. */
module Sequences {

  /** `s.index(x)`: the position of the first occurrence of `x` in `s`, or
      `|s|` when `x` does not occur (where Python raises ValueError). */
  function IndexOf<T(==)>(s: seq<T>, x: T): (i: nat)
    ensures i <= |s|
    ensures i < |s| <==> x in s
    ensures i < |s| ==> s[i] == x
  {
    if s == [] then 0
    else if s[0] == x then 0
    else 1 + IndexOf(s[1..], x)
  }

  /** It is the first occurrence: `x` is not found before it. */
  lemma {:induction false} IndexOfFirst<T>(s: seq<T>, x: T, j: nat)
    requires j < IndexOf(s, x)
    ensures s[j] != x
  {
    if j > 0 {
      IndexOfFirst(s[1..], x, j - 1);
    }
  }

  /** Looking a value up in a concatenation looks in the first part first. */
  lemma {:induction false} IndexOfConcat<T>(a: seq<T>, b: seq<T>, x: T)
    ensures IndexOf(a + b, x) == if x in a then IndexOf(a, x) else |a| + IndexOf(b, x)
  {
    if a == [] {
      assert a + b == b;
    } else {
      assert (a + b)[1..] == a[1..] + b;
      if a[0] != x {
        IndexOfConcat(a[1..], b, x);
      }
    }
  }

  /** In a list without repeats, the first occurrence of `s[i]` is `i`. */
  lemma IndexOfDistinct<T>(s: seq<T>, i: nat)
    requires i < |s|
    requires forall p, q :: 0 <= p < q < |s| ==> s[p] != s[q]
    ensures IndexOf(s, s[i]) == i
  {
  }

  /** The distinct elements of `xs`, each where it first occurs. */
  function Dedup<T(==)>(xs: seq<T>): seq<T>
    decreases |xs|
  {
    if xs == [] then []
    else
      var p := Dedup(xs[..|xs| - 1]);
      if xs[|xs| - 1] in p then p else p + [xs[|xs| - 1]]
  }

  /** `Dedup(xs)` holds exactly the elements of `xs`. */
  lemma {:induction false} DedupMembers<T>(xs: seq<T>)
    ensures forall i :: 0 <= i < |Dedup(xs)| ==> Dedup(xs)[i] in xs
    ensures forall i :: 0 <= i < |xs| ==> xs[i] in Dedup(xs)
    decreases |xs|
  {
    if xs != [] {
      var init, last := xs[..|xs| - 1], xs[|xs| - 1];
      DedupMembers(init);
      DedupStepMembers(init, last, Dedup(init), xs, Dedup(xs));
    }
  }

  /** `Dedup(xs)` holds each element once, in the order of first
      occurrence in `xs`. */
  lemma {:induction false} DedupFirstOccurrences<T>(xs: seq<T>)
    ensures forall i, j :: 0 <= i < j < |Dedup(xs)| ==> Dedup(xs)[i] != Dedup(xs)[j]
    ensures forall i, j :: 0 <= i < j < |Dedup(xs)| ==> IndexOf(xs, Dedup(xs)[i]) < IndexOf(xs, Dedup(xs)[j])
    decreases |xs|
  {
    if xs != [] {
      var init, last := xs[..|xs| - 1], xs[|xs| - 1];
      DedupMembers(init);
      DedupFirstOccurrences(init);
      DedupStepOrder(init, last, Dedup(init), xs, Dedup(xs));
    }
  }

  /** Extending `xs` by one element: membership. */
  lemma DedupStepMembers<T>(init: seq<T>, last: T, p: seq<T>, xs: seq<T>, r: seq<T>)
    requires xs == init + [last]
    requires r == if last in p then p else p + [last]
    requires forall i :: 0 <= i < |p| ==> p[i] in init
    requires forall i :: 0 <= i < |init| ==> init[i] in p
    ensures forall i :: 0 <= i < |r| ==> r[i] in xs
    ensures forall i :: 0 <= i < |xs| ==> xs[i] in r
  {
    forall i | 0 <= i < |xs|
      ensures xs[i] in r
    {
      if i < |init| {
        assert xs[i] == init[i];
      }
    }
  }

  /** Extending `xs` by one element: no repeats, first-occurrence order. */
  lemma DedupStepOrder<T>(init: seq<T>, last: T, p: seq<T>, xs: seq<T>, r: seq<T>)
    requires xs == init + [last]
    requires r == if last in p then p else p + [last]
    requires forall i :: 0 <= i < |p| ==> p[i] in init
    requires forall i :: 0 <= i < |init| ==> init[i] in p
    requires forall i, j :: 0 <= i < j < |p| ==> p[i] != p[j]
    requires forall i, j :: 0 <= i < j < |p| ==> IndexOf(init, p[i]) < IndexOf(init, p[j])
    ensures forall i, j :: 0 <= i < j < |r| ==> r[i] != r[j]
    ensures forall i, j :: 0 <= i < j < |r| ==> IndexOf(xs, r[i]) < IndexOf(xs, r[j])
  {
    if last in p {
      forall i, j | 0 <= i < j < |p|
        ensures IndexOf(xs, p[i]) < IndexOf(xs, p[j])
      {
        IndexOfAppend(init, last, p[i]);
        IndexOfAppend(init, last, p[j]);
      }
    } else {
      assert last !in init;
      IndexOfConcat(init, [last], last);
      forall i, j | 0 <= i < j < |r|
        ensures r[i] != r[j] && IndexOf(xs, r[i]) < IndexOf(xs, r[j])
      {
        assert r[i] == p[i];
        IndexOfAppend(init, last, p[i]);
        if j < |p| {
          assert r[j] == p[j];
          IndexOfAppend(init, last, p[j]);
        }
      }
    }
  }

  /** Appending leaves the first occurrence of an earlier element alone. */
  lemma IndexOfAppend<T>(init: seq<T>, last: T, x: T)
    requires x in init
    ensures IndexOf(init + [last], x) == IndexOf(init, x) < |init|
  {
    IndexOfConcat(init, [last], x);
  }

  /** `sep.join(xs)`. */
  function Join(xs: seq<string>, sep: string): string
  {
    if xs == [] then ""
    else if |xs| == 1 then xs[0]
    else xs[0] + sep + Join(xs[1..], sep)
  }

  /** A join is empty for no strings; otherwise it opens with the first
      string and closes with the last. */
  lemma {:induction false} JoinEnds(xs: seq<string>, sep: string)
    ensures xs == [] ==> Join(xs, sep) == ""
    ensures xs != [] ==> |xs[0]| <= |Join(xs, sep)| && Join(xs, sep)[..|xs[0]|] == xs[0]
    ensures xs != [] ==> var r := Join(xs, sep);
      |xs[|xs| - 1]| <= |r| && r[|r| - |xs[|xs| - 1]|..] == xs[|xs| - 1]
  {
    if |xs| > 1 {
      JoinEnds(xs[1..], sep);
      var r := Join(xs, sep);
      var t := Join(xs[1..], sep);
      assert r == xs[0] + sep + t;
      assert r[|r| - |t|..] == t;
    }
  }

  /** Joining one more string appends the separator and that string: with
      `Join([x], sep) == x` this reads `sep.join` left to right. */
  lemma {:induction false} JoinSnoc(xs: seq<string>, x: string, sep: string)
    requires xs != []
    ensures Join(xs + [x], sep) == Join(xs, sep) + sep + x
  {
    if |xs| == 1 {
      assert (xs + [x])[1..] == [x];
    } else {
      assert (xs + [x])[1..] == xs[1..] + [x];
      JoinSnoc(xs[1..], x, sep);
    }
  }
}
