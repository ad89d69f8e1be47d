/**
 * Sequence facts used by the tag bar: duplicate-freedom, first occurrences,
 * subsequences, and the first-occurrence deduplication `Array.from(new Set(xs))`.
 */
module Seqs {

  predicate NoDup<T(==)>(xs: seq<T>) {
    forall i, j :: 0 <= i < j < |xs| ==> xs[i] != xs[j]
  }

  /** The index where `x` first occurs in `xs`. */
  function FirstIndex<T(==)>(xs: seq<T>, x: T): (k: nat)
    requires x in xs
    ensures k < |xs| && xs[k] == x && x !in xs[..k]
  {
    if xs[0] == x then 0
    else
      assert x in xs[1..];
      var k := 1 + FirstIndex(xs[1..], x);
      assert xs[..k] == [xs[0]] + xs[1..][..k - 1];
      k
  }

  /** The first index is the only index holding `x` with no earlier `x`. */
  lemma FirstIndexUnique<T>(xs: seq<T>, x: T, k: nat)
    requires k < |xs| && xs[k] == x && x !in xs[..k]
    ensures FirstIndex(xs, x) == k
  {
  }

  /** Extending a sequence does not move the first occurrence of anything already in it. */
  lemma FirstIndexPrefix<T>(xs: seq<T>, n: nat, x: T)
    requires n <= |xs| && x in xs[..n]
    ensures FirstIndex(xs, x) == FirstIndex(xs[..n], x)
  {
    var k := FirstIndex(xs[..n], x);
    assert xs[..n][..k] == xs[..k];
    FirstIndexUnique(xs, x, k);
  }

  /**
   * The elements of `ys` all occur in `xs`, and appear in `ys` in the order of their
   * first occurrence in `xs` (which also rules out duplicates).
   */
  predicate InFirstOccurrenceOrder<T(==)>(xs: seq<T>, ys: seq<T>) {
    && (forall i :: 0 <= i < |ys| ==> ys[i] in xs)
    && forall i, j :: 0 <= i < j < |ys| ==> FirstIndex(xs, ys[i]) < FirstIndex(xs, ys[j])
  }

  /**
   * `Array.from(new Set(xs))`: the set is filled by visiting `xs` from left to right,
   * and iterates in insertion order, so an element is kept where it first occurs.
   */
  function Distinct<T(==)>(xs: seq<T>): (r: seq<T>)
    ensures NoDup(r)
    ensures forall i :: 0 <= i < |xs| ==> xs[i] in r
    ensures InFirstOccurrenceOrder(xs, r)
    ensures r == [] <==> xs == []
    decreases |xs|
  {
    if xs == [] then []
    else
      var n := |xs| - 1;
      var d := Distinct(xs[..n]);
      if xs[n] in d then
        SnocSeen(xs, d);
        d
      else
        SnocNew(xs, d);
        d + [xs[n]]
  }

  /** Appending an element already seen leaves the deduplicated prefix correct. */
  lemma SnocSeen<T>(xs: seq<T>, d: seq<T>)
    requires xs != [] && xs[|xs| - 1] in d
    requires forall i :: 0 <= i < |xs| - 1 ==> xs[i] in d
    requires InFirstOccurrenceOrder(xs[..|xs| - 1], d)
    ensures forall i :: 0 <= i < |xs| ==> xs[i] in d
    ensures InFirstOccurrenceOrder(xs, d)
  {
    var n := |xs| - 1;
    forall y | y in d
      ensures FirstIndex(xs, y) == FirstIndex(xs[..n], y)
    {
      FirstIndexPrefix(xs, n, y);
    }
  }

  /** Appending an element not seen before adds it at the end. */
  lemma SnocNew<T>(xs: seq<T>, d: seq<T>)
    requires xs != [] && xs[|xs| - 1] !in d
    requires NoDup(d)
    requires forall i :: 0 <= i < |xs| - 1 ==> xs[i] in d
    requires InFirstOccurrenceOrder(xs[..|xs| - 1], d)
    ensures NoDup(d + [xs[|xs| - 1]])
    ensures forall i :: 0 <= i < |xs| ==> xs[i] in d + [xs[|xs| - 1]]
    ensures InFirstOccurrenceOrder(xs, d + [xs[|xs| - 1]])
  {
    var n := |xs| - 1;
    var r := d + [xs[n]];
    forall y | y in d
      ensures FirstIndex(xs, y) == FirstIndex(xs[..n], y) < n
    {
      FirstIndexPrefix(xs, n, y);
    }
    assert xs[n] !in xs[..n];
    FirstIndexUnique(xs, xs[n], n);
    forall i, j | 0 <= i < j < |r|
      ensures FirstIndex(xs, r[i]) < FirstIndex(xs, r[j])
    {
      assert r[i] == d[i];
    }
  }

  /**
   * The contract of `Distinct` pins its result down: a sequence holding exactly the
   * elements of `xs`, in first-occurrence order, is `Distinct(xs)`.
   */
  lemma {:induction false} DistinctUnique<T>(xs: seq<T>, ys: seq<T>)
    requires forall i :: 0 <= i < |xs| ==> xs[i] in ys
    requires InFirstOccurrenceOrder(xs, ys)
    ensures ys == Distinct(xs)
  {
    OrderedUnique(xs, ys, Distinct(xs));
  }

  lemma OrderTail<T>(xs: seq<T>, a: seq<T>)
    requires a != [] && InFirstOccurrenceOrder(xs, a)
    ensures InFirstOccurrenceOrder(xs, a[1..])
  {
    forall i, j | 0 <= i < j < |a| - 1
      ensures FirstIndex(xs, a[1..][i]) < FirstIndex(xs, a[1..][j])
    {
      assert a[1..][i] == a[i + 1] && a[1..][j] == a[j + 1];
    }
  }

  /** Of two such sequences with the same elements, each starts with the other's head. */
  lemma SameHead<T>(xs: seq<T>, a: seq<T>, b: seq<T>)
    requires InFirstOccurrenceOrder(xs, a) && InFirstOccurrenceOrder(xs, b)
    requires forall i :: 0 <= i < |a| ==> a[i] in b
    requires forall i :: 0 <= i < |b| ==> b[i] in a
    requires a != []
    ensures b != [] && a[0] == b[0]
  {
    assert a[0] in b;
    var i :| 0 <= i < |b| && b[i] == a[0];
    var j :| 0 <= j < |a| && a[j] == b[0];
    if i != 0 && j != 0 {
      assert false;
    }
  }

  /** Dropping a shared head keeps the tails' elements in each other. */
  lemma TailMembers<T>(xs: seq<T>, a: seq<T>, b: seq<T>)
    requires InFirstOccurrenceOrder(xs, a)
    requires forall i :: 0 <= i < |a| ==> a[i] in b
    requires a != [] && b != [] && a[0] == b[0]
    ensures forall k :: 0 <= k < |a| - 1 ==> a[1..][k] in b[1..]
  {
    forall k | 0 <= k < |a| - 1
      ensures a[1..][k] in b[1..]
    {
      assert FirstIndex(xs, a[0]) < FirstIndex(xs, a[k + 1]);
      var m :| 0 <= m < |b| && b[m] == a[k + 1];
      assert b[1..][m - 1] == a[k + 1];
    }
  }

  /** Two sequences in first-occurrence order with the same elements are equal. */
  lemma {:induction false} OrderedUnique<T>(xs: seq<T>, a: seq<T>, b: seq<T>)
    requires InFirstOccurrenceOrder(xs, a) && InFirstOccurrenceOrder(xs, b)
    requires forall i :: 0 <= i < |a| ==> a[i] in b
    requires forall i :: 0 <= i < |b| ==> b[i] in a
    ensures a == b
    decreases |a|
  {
    if a != [] {
      SameHead(xs, a, b);
      var ta, tb := a[1..], b[1..];
      OrderTail(xs, a);
      OrderTail(xs, b);
      TailMembers(xs, a, b);
      TailMembers(xs, b, a);
      assert forall i :: 0 <= i < |ta| ==> ta[i] in tb;
      assert forall i :: 0 <= i < |tb| ==> tb[i] in ta;
      OrderedUnique(xs, ta, tb);
      HeadTail(a);
      HeadTail(b);
    }
  }

  lemma HeadTail<T>(a: seq<T>)
    requires a != []
    ensures a == [a[0]] + a[1..]
  {
  }

  /** `a` is obtained from `b` by deleting elements (greedy matching is complete). */
  predicate IsSubsequence<T(==)>(a: seq<T>, b: seq<T>)
    decreases |b|
  {
    if a == [] then true
    else if b == [] then false
    else if a[0] == b[0] then IsSubsequence(a[1..], b[1..])
    else IsSubsequence(a, b[1..])
  }
}
