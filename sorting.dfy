/**
 * Python's ordering of `str` values and `sorted` of a set of them: strings compare by
 * code point, position by position, and a proper prefix comes first.
 */
module Sorting {

  /** `a < b` on Python strings. */
  predicate Below(a: string, b: string)
    decreases |a|
  {
    b != [] && (a == [] || a[0] < b[0] || (a[0] == b[0] && Below(a[1..], b[1..])))
  }

  lemma {:induction false} BelowIrreflexive(a: string)
    ensures !Below(a, a)
    decreases |a|
  {
    if a != [] {
      BelowIrreflexive(a[1..]);
    }
  }

  lemma {:induction false} BelowTransitive(a: string, b: string, c: string)
    requires Below(a, b) && Below(b, c)
    ensures Below(a, c)
    decreases |a|
  {
    if a != [] && a[0] == b[0] && b[0] == c[0] {
      BelowTransitive(a[1..], b[1..], c[1..]);
    }
  }

  /** Any two different strings are ordered one way or the other. */
  lemma {:induction false} BelowTotal(a: string, b: string)
    ensures a == b || Below(a, b) || Below(b, a)
    decreases |a|
  {
    if a != [] && b != [] && a[0] == b[0] {
      BelowTotal(a[1..], b[1..]);
      if a[1..] == b[1..] {
        assert a == [a[0]] + a[1..] && b == [b[0]] + b[1..];
      }
    }
  }

  /** Ascending without repeats. */
  predicate StrictlySorted(xs: seq<string>) {
    forall i, j :: 0 <= i < j < |xs| ==> Below(xs[i], xs[j])
  }

  /** `xs` and `ys` hold the same strings. */
  ghost predicate SameElements(xs: seq<string>, ys: set<string>) {
    forall x :: x in xs <==> x in ys
  }

  lemma SortedCons(a: string, xs: seq<string>)
    requires StrictlySorted(xs) && forall y :: y in xs ==> Below(a, y)
    ensures StrictlySorted([a] + xs)
  {
    var r := [a] + xs;
    forall i, j | 0 <= i < j < |r| ensures Below(r[i], r[j]) {
      assert r[j] == xs[j - 1];
      if i > 0 {
        assert r[i] == xs[i - 1];
      }
    }
  }

  /** `u` put into its place in the ascending `xs`, unless it is there already. */
  function Insert(xs: seq<string>, u: string): (r: seq<string>)
    requires StrictlySorted(xs)
    ensures StrictlySorted(r)
    ensures forall x :: x in r <==> x in xs || x == u
    decreases |xs|
  {
    if xs == [] then [u]
    else if xs[0] == u then xs
    else if Below(u, xs[0]) then
      InsertFront(xs, u);
      [u] + xs
    else
      var t := Insert(xs[1..], u);
      InsertAfter(xs, u, t);
      [xs[0]] + t
  }

  lemma InsertFront(xs: seq<string>, u: string)
    requires StrictlySorted(xs) && xs != [] && Below(u, xs[0])
    ensures StrictlySorted([u] + xs)
  {
    forall y | y in xs ensures Below(u, y) {
      var k :| 0 <= k < |xs| && xs[k] == y;
      if k > 0 {
        BelowTransitive(u, xs[0], y);
      }
    }
    SortedCons(u, xs);
  }

  lemma InsertAfter(xs: seq<string>, u: string, t: seq<string>)
    requires StrictlySorted(xs) && xs != [] && xs[0] != u && !Below(u, xs[0])
    requires StrictlySorted(t) && forall x :: x in t <==> x in xs[1..] || x == u
    ensures StrictlySorted([xs[0]] + t)
  {
    BelowTotal(u, xs[0]);
    forall y | y in t ensures Below(xs[0], y) {
      if y != u {
        var k :| 0 <= k < |xs[1..]| && xs[1..][k] == y;
        assert xs[k + 1] == y;
      }
    }
    SortedCons(xs[0], t);
  }

  /** `sorted(s)` for a set of strings: its elements in ascending order. */
  method SortedList(s: set<string>) returns (r: seq<string>)
    ensures StrictlySorted(r) && SameElements(r, s)
  {
    r := [];
    var rest := s;
    while rest != {}
      invariant rest <= s && StrictlySorted(r)
      invariant forall x :: x in r <==> x in s && x !in rest
      decreases |rest|
    {
      var x :| x in rest;
      r := Insert(r, x);
      rest := rest - {x};
    }
  }

  lemma NonEmptyAlike(xs: seq<string>, ys: seq<string>)
    requires xs != [] && forall x :: x in xs <==> x in ys
    ensures ys != []
  {
    assert xs[0] in xs;
  }

  /**
   * An ascending list without repeats is determined by its elements, so the list
   * `SortedList` returns is the one `sorted` returns.
   */
  lemma {:induction false} SortedUnique(xs: seq<string>, ys: seq<string>)
    requires StrictlySorted(xs) && StrictlySorted(ys)
    requires forall x :: x in xs <==> x in ys
    ensures xs == ys
    decreases |xs|
  {
    if xs != [] {
      NonEmptyAlike(xs, ys);
    } else if ys != [] {
      NonEmptyAlike(ys, xs);
    }
    if xs != [] {
      if xs[0] != ys[0] {
        assert xs[0] in xs && ys[0] in ys;
        var i :| 0 <= i < |ys| && ys[i] == xs[0];
        var j :| 0 <= j < |xs| && xs[j] == ys[0];
        assert i > 0 && j > 0;
        assert Below(ys[0], xs[0]) && Below(xs[0], ys[0]);
        BelowTransitive(xs[0], ys[0], xs[0]);
        BelowIrreflexive(xs[0]);
      }
      assert xs[0] == ys[0];
      assert xs == [xs[0]] + xs[1..] && ys == [ys[0]] + ys[1..];
      forall x ensures x in xs[1..] <==> x in ys[1..] {
        if x in xs[1..] {
          var k :| 0 <= k < |xs[1..]| && xs[1..][k] == x;
          assert Below(xs[0], x) by { assert xs[k + 1] == x; }
          BelowIrreflexive(x);
          assert x in ys && x != ys[0];
        }
        if x in ys[1..] {
          var k :| 0 <= k < |ys[1..]| && ys[1..][k] == x;
          assert Below(ys[0], x) by { assert ys[k + 1] == x; }
          BelowIrreflexive(x);
          assert x in xs && x != xs[0];
        }
      }
      SortedUnique(xs[1..], ys[1..]);
    }
  }
}
