/** The contract of `Array.prototype.sort` with a comparator: a stable sort.
    `first(a, b)` holds when the comparator lets `a` stay ahead of `b`
    (it returns a value that is not positive). Any stable sort returns the
    same sequence, so a stable insertion sort stands for the engine's. */
module Sorting {

  ghost predicate TotalPreorder<T(!new)>(first: (T, T) -> bool) {
    (forall a, b :: first(a, b) || first(b, a))
    && (forall a, b, c :: first(a, b) && first(b, c) ==> first(a, c))
  }

  /** Every element may stay ahead of every later one. */
  ghost predicate Ordered<T>(s: seq<T>, first: (T, T) -> bool) {
    forall i, j :: 0 <= i < j < |s| ==> first(s[i], s[j])
  }

  /** `a` and `b` compare equal. */
  predicate Tied<T>(a: T, b: T, first: (T, T) -> bool) {
    first(a, b) && first(b, a)
  }

  /** The elements of `s` that compare equal to `p`, in their order in `s`. */
  function TiedWith<T>(s: seq<T>, p: T, first: (T, T) -> bool): (r: seq<T>)
    ensures |r| <= |s|
  {
    if s == [] then []
    else TiedWith(s[..|s| - 1], p, first)
         + (if Tied(s[|s| - 1], p, first) then [s[|s| - 1]] else [])
  }

  /** Places `x` after every element that may stay ahead of it. */
  function Insert<T>(x: T, s: seq<T>, first: (T, T) -> bool): (r: seq<T>)
    ensures |r| == |s| + 1
    ensures multiset(r) == multiset(s) + multiset{x}
  {
    if s == [] || !first(s[0], x) then [x] + s
    else
      assert s == [s[0]] + s[1..];
      [s[0]] + Insert(x, s[1..], first)
  }

  function Sort<T>(xs: seq<T>, first: (T, T) -> bool): (r: seq<T>)
    ensures multiset(r) == multiset(xs)
  {
    if xs == [] then []
    else
      assert xs == xs[..|xs| - 1] + [xs[|xs| - 1]];
      Insert(xs[|xs| - 1], Sort(xs[..|xs| - 1], first), first)
  }

  lemma SortLength<T>(xs: seq<T>, first: (T, T) -> bool)
    ensures |Sort(xs, first)| == |xs|
  {
    assert |multiset(Sort(xs, first))| == |multiset(xs)|;
  }

  lemma {:induction false} InsertOrdered<T(!new)>(x: T, s: seq<T>, first: (T, T) -> bool)
    requires TotalPreorder(first) && Ordered(s, first)
    ensures Ordered(Insert(x, s, first), first)
    decreases |s|
  {
    if s != [] && first(s[0], x) {
      InsertOrdered(x, s[1..], first);
      HeadBeforeInsert(x, s, first);
      ConsOrdered(s[0], Insert(x, s[1..], first), first);
    } else if s != [] {
      forall e | e in s ensures first(x, e) {
        var k :| 0 <= k < |s| && s[k] == e;
        if k > 0 { assert first(s[0], s[k]); }
      }
      ConsOrdered(x, s, first);
    }
  }

  /** An element that may stay ahead of all of `s` and of `x` may stay ahead
      of all of `Insert(x, s[1..])`. */
  lemma HeadBeforeInsert<T(!new)>(x: T, s: seq<T>, first: (T, T) -> bool)
    requires Ordered(s, first) && s != [] && first(s[0], x)
    ensures forall e :: e in Insert(x, s[1..], first) ==> first(s[0], e)
  {
    var rest := Insert(x, s[1..], first);
    forall e | e in rest ensures first(s[0], e) {
      assert e in multiset(rest);
      if e != x {
        assert e in multiset(s[1..]);
        var k :| 0 <= k < |s[1..]| && s[1..][k] == e;
        assert s[k + 1] == e;
      }
    }
  }

  /** An ordered sequence stays ordered with an element in front that may
      stay ahead of all of it. */
  lemma ConsOrdered<T>(h: T, rest: seq<T>, first: (T, T) -> bool)
    requires Ordered(rest, first) && forall e :: e in rest ==> first(h, e)
    ensures Ordered([h] + rest, first)
  {
    var r := [h] + rest;
    forall i, j | 0 <= i < j < |r| ensures first(r[i], r[j]) {
      assert r[j] == rest[j - 1];
      if i == 0 {
        assert rest[j - 1] in rest;
      } else {
        assert r[i] == rest[i - 1];
      }
    }
  }

  /** The result is ordered by the comparator. */
  lemma {:induction false} SortOrdered<T(!new)>(xs: seq<T>, first: (T, T) -> bool)
    requires TotalPreorder(first)
    ensures Ordered(Sort(xs, first), first)
    decreases |xs|
  {
    if xs != [] {
      SortOrdered(xs[..|xs| - 1], first);
      InsertOrdered(xs[|xs| - 1], Sort(xs[..|xs| - 1], first), first);
    }
  }

  lemma {:induction false} TiedWithAppend<T>(a: seq<T>, b: seq<T>, p: T, first: (T, T) -> bool)
    ensures TiedWith(a + b, p, first) == TiedWith(a, p, first) + TiedWith(b, p, first)
    decreases |b|
  {
    if b == [] {
      assert a + b == a;
    } else {
      var b' := b[..|b| - 1];
      assert (a + b)[..|a + b| - 1] == a + b';
      TiedWithAppend(a, b', p, first);
    }
  }

  lemma {:induction false} TiedWithNone<T>(s: seq<T>, p: T, first: (T, T) -> bool)
    requires forall i :: 0 <= i < |s| ==> !Tied(s[i], p, first)
    ensures TiedWith(s, p, first) == []
    decreases |s|
  {
    if s != [] { TiedWithNone(s[..|s| - 1], p, first); }
  }

  lemma {:induction false} InsertStable<T(!new)>(x: T, s: seq<T>, p: T, first: (T, T) -> bool)
    requires TotalPreorder(first) && Ordered(s, first)
    ensures TiedWith(Insert(x, s, first), p, first)
         == TiedWith(s, p, first) + (if Tied(x, p, first) then [x] else [])
    decreases |s|
  {
    if s == [] {
      assert Insert(x, s, first) == [] + [x];
    } else if !first(s[0], x) {
      InsertFrontStable(x, s, p, first);
    } else {
      InsertStable(x, s[1..], p, first);
      InsertStepStable(x, s, p, first);
    }
  }

  /** `x` goes in front: the elements tied with `p` are those of `s`, and `x`
      comes after them only when it is tied too, in which case `s` has none. */
  lemma InsertFrontStable<T(!new)>(x: T, s: seq<T>, p: T, first: (T, T) -> bool)
    requires TotalPreorder(first) && Ordered(s, first)
    requires s != [] && !first(s[0], x)
    ensures TiedWith([x] + s, p, first)
         == TiedWith(s, p, first) + (if Tied(x, p, first) then [x] else [])
  {
    TiedWithAppend([x], s, p, first);
    assert TiedWith([x], p, first) == TiedWith([], p, first) + (if Tied(x, p, first) then [x] else []);
    if Tied(x, p, first) {
      NoneTiedAhead(x, s, p, first);
      TiedWithNone(s, p, first);
    }
  }

  /** Nothing in `s` is tied with `p` when `x`, tied with `p`, must precede
      all of `s`. */
  lemma NoneTiedAhead<T(!new)>(x: T, s: seq<T>, p: T, first: (T, T) -> bool)
    requires TotalPreorder(first) && Ordered(s, first)
    requires s != [] && !first(s[0], x) && Tied(x, p, first)
    ensures forall i :: 0 <= i < |s| ==> !Tied(s[i], p, first)
  {
    forall i | 0 <= i < |s| ensures !Tied(s[i], p, first) {
      if i > 0 { assert first(s[0], s[i]); }
    }
  }

  /** `x` goes past `s[0]`: `s[0]` stays at the front of both sides. */
  lemma InsertStepStable<T(!new)>(x: T, s: seq<T>, p: T, first: (T, T) -> bool)
    requires s != [] && first(s[0], x)
    requires TiedWith(Insert(x, s[1..], first), p, first)
          == TiedWith(s[1..], p, first) + (if Tied(x, p, first) then [x] else [])
    ensures TiedWith(Insert(x, s, first), p, first)
         == TiedWith(s, p, first) + (if Tied(x, p, first) then [x] else [])
  {
    var rest := Insert(x, s[1..], first);
    var t := if Tied(x, p, first) then [x] else [];
    var head := TiedWith([s[0]], p, first);
    InsertPast(x, s, first);
    calc {
      TiedWith(Insert(x, s, first), p, first);
      TiedWith([s[0]] + rest, p, first);
      { TiedWithAppend([s[0]], rest, p, first); }
      head + TiedWith(rest, p, first);
      head + (TiedWith(s[1..], p, first) + t);
      (head + TiedWith(s[1..], p, first)) + t;
      { TiedWithAppend([s[0]], s[1..], p, first); }
      TiedWith([s[0]] + s[1..], p, first) + t;
      { assert [s[0]] + s[1..] == s; }
      TiedWith(s, p, first) + t;
    }
  }

  lemma InsertPast<T>(x: T, s: seq<T>, first: (T, T) -> bool)
    requires s != [] && first(s[0], x)
    ensures Insert(x, s, first) == [s[0]] + Insert(x, s[1..], first)
  {
  }

  /** Stability: elements that compare equal keep their input order. */
  lemma {:induction false} SortStable<T(!new)>(xs: seq<T>, p: T, first: (T, T) -> bool)
    requires TotalPreorder(first)
    ensures TiedWith(Sort(xs, first), p, first) == TiedWith(xs, p, first)
    decreases |xs|
  {
    if xs != [] {
      var init := xs[..|xs| - 1];
      SortStable(init, p, first);
      SortOrdered(init, first);
      InsertStable(xs[|xs| - 1], Sort(init, first), p, first);
    }
  }
}
