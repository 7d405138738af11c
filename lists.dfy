/** List comprehensions with a filter, as the tools write them. */
module Lists {
  /** `[f(x) for x in xs[:n] if keep(x)]`. */
  function FilterMap<A, B>(xs: seq<A>, n: nat, keep: A -> bool, f: A -> B): (r: seq<B>)
    requires n <= |xs|
    ensures |r| <= n
  {
    if n == 0 then []
    else FilterMap(xs, n - 1, keep, f) + (if keep(xs[n - 1]) then [f(xs[n - 1])] else [])
  }

  /** An element is in the result iff it is the image of a kept element. */
  lemma {:induction false} FilterMapIff<A, B>(xs: seq<A>, n: nat, keep: A -> bool, f: A -> B, e: B)
    requires n <= |xs|
    ensures e in FilterMap(xs, n, keep, f) <==> exists i :: 0 <= i < n && keep(xs[i]) && e == f(xs[i])
  {
    if n > 0 {
      FilterMapIff(xs, n - 1, keep, f, e);
      if keep(xs[n - 1]) && e == f(xs[n - 1]) {
        assert e in FilterMap(xs, n, keep, f);
      }
    }
  }

  /** The result keeps the order of the input. */
  lemma {:induction false} FilterMapOrder<A, B>(xs: seq<A>, n: nat, keep: A -> bool, f: A -> B, i: nat, j: nat)
    requires n <= |xs| && i < j < n && keep(xs[i]) && keep(xs[j])
    ensures exists p, q :: 0 <= p < q < |FilterMap(xs, n, keep, f)| && FilterMap(xs, n, keep, f)[p] == f(xs[i]) && FilterMap(xs, n, keep, f)[q] == f(xs[j])
  {
    var r := FilterMap(xs, n, keep, f);
    var r' := FilterMap(xs, n - 1, keep, f);
    assert r == r' + [f(xs[n - 1])] || r == r';
    if j == n - 1 {
      FilterMapIff(xs, n - 1, keep, f, f(xs[i]));
      var p :| 0 <= p < |r'| && r'[p] == f(xs[i]);
      assert r[p] == f(xs[i]);
      assert r[|r'|] == f(xs[j]);
    } else {
      FilterMapOrder(xs, n - 1, keep, f, i, j);
      var p, q :| 0 <= p < q < |r'| && r'[p] == f(xs[i]) && r'[q] == f(xs[j]);
      assert r[p] == f(xs[i]) && r[q] == f(xs[j]);
      assert 0 <= p < q < |r|;
    }
  }

  /** Two kept elements give their two images. */
  lemma FilterMapTwo<A, B>(x: A, y: A, keep: A -> bool, f: A -> B)
    requires keep(x) && keep(y)
    ensures FilterMap([x, y], 2, keep, f) == [f(x), f(y)]
  {
    assert FilterMap([x, y], 1, keep, f) == [f(x)];
  }

  /** What `step` adds for each element, given the elements before it,
      one element after another. */
  function Accumulate<T, U>(xs: seq<T>, step: (seq<T>, T) -> seq<U>): seq<U>
    decreases |xs|
  {
    if xs == [] then [] else Accumulate(xs[..|xs| - 1], step) + step(xs[..|xs| - 1], xs[|xs| - 1])
  }

  /** Element `i` of `xs` adds `u`. */
  predicate AddedAt<T, U(==)>(xs: seq<T>, step: (seq<T>, T) -> seq<U>, i: int, u: U) {
    0 <= i < |xs| && u in step(xs[..i], xs[i])
  }

  lemma AddedAtPrefix<T, U>(xs: seq<T>, step: (seq<T>, T) -> seq<U>, n: nat, i: int, u: U)
    requires n <= |xs| && 0 <= i < n
    ensures AddedAt(xs[..n], step, i, u) <==> AddedAt(xs, step, i, u)
  {
    assert xs[..n][..i] == xs[..i];
  }

  /** A value is in the result iff some element adds it. */
  lemma {:induction false} AccumulateIff<T, U>(xs: seq<T>, step: (seq<T>, T) -> seq<U>, u: U)
    ensures u in Accumulate(xs, step) <==> exists i :: AddedAt(xs, step, i, u)
    decreases |xs|
  {
    if xs != [] {
      var n := |xs| - 1;
      AccumulateIff(xs[..n], step, u);
      if u in Accumulate(xs[..n], step) {
        var i :| AddedAt(xs[..n], step, i, u);
        AddedAtPrefix(xs, step, n, i, u);
      }
      if u in step(xs[..n], xs[n]) {
        assert AddedAt(xs, step, n, u);
      }
      if exists i :: AddedAt(xs, step, i, u) {
        var i :| AddedAt(xs, step, i, u);
        if i < n {
          AddedAtPrefix(xs, step, n, i, u);
        }
      }
    }
  }
}
