/** List helpers shared by the client and the server: duplicate removal with
    the insertion order a JavaScript `Set` keeps. */
module Lists {

  predicate Distinct<T(==)>(s: seq<T>) {
    forall i, j :: 0 <= i < j < |s| ==> s[i] != s[j]
  }

  /** The index of the first occurrence of `x` in `s`. */
  function FirstIndex<T(==)>(s: seq<T>, x: T): (k: nat)
    requires x in s
    ensures k < |s| && s[k] == x && x !in s[..k]
  {
    if s[0] == x then 0
    else
      var k := FirstIndex(s[1..], x);
      assert s[1..][..k] == s[1..k + 1];
      assert s[..k + 1] == [s[0]] + s[1..k + 1];
      k + 1
  }

  /** `Array.from(new Set(s))`: each value once, where it first occurs. */
  function Dedup<T(==,!new)>(s: seq<T>): (r: seq<T>)
    ensures |r| <= |s|
    ensures forall x :: x in r <==> x in s
    ensures Distinct(r)
  {
    if s == [] then []
    else
      var init := s[..|s| - 1];
      var d := Dedup(init);
      assert forall x :: x in init ==> x in s;
      assert s == init + [s[|s| - 1]];
      if s[|s| - 1] in d then d else d + [s[|s| - 1]]
  }

  lemma FirstIndexPrefix<T>(s: seq<T>, x: T, y: T)
    requires x in s
    ensures FirstIndex(s + [y], x) == FirstIndex(s, x)
  {
    var k := FirstIndex(s, x);
    var t := s + [y];
    assert t[..k] == s[..k] && t[k] == x;
    FirstIndexUnique(t, x, k);
  }

  /** The first occurrence is the only index with no earlier copy. */
  lemma FirstIndexUnique<T>(s: seq<T>, x: T, k: nat)
    requires k < |s| && s[k] == x && x !in s[..k]
    ensures FirstIndex(s, x) == k
  {
  }

  /** Values keep the order of their first occurrences. */
  lemma {:induction false} DedupOrder<T(!new)>(s: seq<T>)
    ensures forall i, j :: 0 <= i < j < |Dedup(s)| ==>
      FirstIndex(s, Dedup(s)[i]) < FirstIndex(s, Dedup(s)[j])
    decreases |s|
  {
    if s != [] {
      var init := s[..|s| - 1];
      var last := s[|s| - 1];
      assert s == init + [last];
      DedupOrder(init);
      var d := Dedup(init);
      forall x | x in init ensures FirstIndex(s, x) == FirstIndex(init, x) {
        FirstIndexPrefix(init, x, last);
      }
      if last !in d {
        assert last !in init;
        FirstIndexUnique(s, last, |s| - 1);
        forall i, j | 0 <= i < j < |Dedup(s)|
          ensures FirstIndex(s, Dedup(s)[i]) < FirstIndex(s, Dedup(s)[j])
        {
          assert Dedup(s)[i] == d[i];
          if j < |d| {
            assert Dedup(s)[j] == d[j];
          }
        }
      }
    }
  }

  /** Text without repeats passes unchanged. */
  lemma {:induction false} DedupDistinct<T(!new)>(s: seq<T>)
    requires Distinct(s)
    ensures Dedup(s) == s
    decreases |s|
  {
    if s != [] {
      var init := s[..|s| - 1];
      assert Distinct(init);
      DedupDistinct(init);
      assert s == init + [s[|s| - 1]];
    }
  }

  /** `f` applied to each element of `xs` and the results joined, in order. */
  function FlatMap<A, B>(xs: seq<A>, f: A -> seq<B>): seq<B> {
    if xs == [] then [] else FlatMap(xs[..|xs| - 1], f) + f(xs[|xs| - 1])
  }

  lemma FlatMapLast<A, B>(xs: seq<A>, j: nat, f: A -> seq<B>)
    requires j < |xs|
    ensures FlatMap(xs[..j + 1], f) == FlatMap(xs[..j], f) + f(xs[j])
  {
    assert xs[..j + 1][..j] == xs[..j];
  }

  /** Mapping a list made of two parts maps each part in turn. */
  lemma {:induction false} FlatMapAppend<A, B>(a: seq<A>, b: seq<A>, f: A -> seq<B>)
    ensures FlatMap(a + b, f) == FlatMap(a, f) + FlatMap(b, f)
    decreases |b|
  {
    if b == [] {
      assert a + b == a;
    } else {
      var init := b[..|b| - 1];
      assert (a + b)[..|a + b| - 1] == a + init;
      assert (a + b)[|a + b| - 1] == b[|b| - 1];
      FlatMapAppend(a, init, f);
    }
  }
}
