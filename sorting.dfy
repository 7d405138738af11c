/** Python's `sorted(xs, key=...)` and `list.sort()`: a stable sort by a
    total preorder `le`. Elements that compare equal keep their input order. */
module Sorting {

  /** `le` is a total preorder: every two elements compare, and it chains. */
  ghost predicate TotalPreorder<T(!new)>(le: (T, T) -> bool) {
    (forall a, b :: le(a, b) || le(b, a)) &&
    (forall a, b, c :: le(a, b) && le(b, c) ==> le(a, c))
  }

  predicate Sorted<T>(s: seq<T>, le: (T, T) -> bool) {
    forall i, j :: 0 <= i < j < |s| ==> le(s[i], s[j])
  }

  /** Puts `x` after every element of `s` that is not greater than it. */
  function Insert<T>(s: seq<T>, x: T, le: (T, T) -> bool): (r: seq<T>)
    ensures multiset(r) == multiset(s) + multiset{x}
    ensures |r| == |s| + 1
  {
    if s == [] then [x]
    else if le(s[0], x) then
      assert s == [s[0]] + s[1..];
      [s[0]] + Insert(s[1..], x, le)
    else [x] + s
  }

  lemma {:induction false} InsertSorted<T(!new)>(s: seq<T>, x: T, le: (T, T) -> bool)
    requires TotalPreorder(le) && Sorted(s, le)
    ensures Sorted(Insert(s, x, le), le)
  {
    if s != [] && le(s[0], x) {
      var t := s[1..];
      var r := Insert(t, x, le);
      TailSorted(s, le);
      InsertSorted(t, x, le);
      forall k | 0 <= k < |r| ensures le(s[0], r[k]) {
        assert r[k] in multiset(r);
        if r[k] != x {
          assert r[k] in multiset(t);
          HeadLe(s, r[k], le);
        }
      }
      ConsSorted(s[0], r, le);
      assert Insert(s, x, le) == [s[0]] + r;
    } else if s != [] {
      forall k | 0 <= k < |s| ensures le(x, s[k]) {
        if k > 0 {
          assert le(s[0], s[k]);
        }
      }
      ConsSorted(x, s, le);
    }
  }

  lemma TailSorted<T>(s: seq<T>, le: (T, T) -> bool)
    requires s != [] && Sorted(s, le)
    ensures Sorted(s[1..], le)
  {
    var t := s[1..];
    forall i, j | 0 <= i < j < |t| ensures le(t[i], t[j]) {
      assert t[i] == s[i + 1] && t[j] == s[j + 1];
    }
  }

  lemma HeadLe<T>(s: seq<T>, y: T, le: (T, T) -> bool)
    requires s != [] && Sorted(s, le) && y in s[1..]
    ensures le(s[0], y)
  {
    var j :| 0 <= j < |s[1..]| && s[1..][j] == y;
    assert s[j + 1] == y;
  }

  lemma ConsSorted<T>(a: T, r: seq<T>, le: (T, T) -> bool)
    requires Sorted(r, le) && forall k :: 0 <= k < |r| ==> le(a, r[k])
    ensures Sorted([a] + r, le)
  {
    var s := [a] + r;
    forall i, j | 0 <= i < j < |s| ensures le(s[i], s[j]) {
      assert s[j] == r[j - 1];
      if i > 0 {
        assert s[i] == r[i - 1];
      }
    }
  }

  /** The stable sort: each element is inserted after the equal ones seen before it. */
  function Sort<T>(s: seq<T>, le: (T, T) -> bool): (r: seq<T>)
    ensures multiset(r) == multiset(s)
    ensures |r| == |s|
  {
    if s == [] then []
    else
      assert s == s[..|s| - 1] + [s[|s| - 1]];
      Insert(Sort(s[..|s| - 1], le), s[|s| - 1], le)
  }

  /** An input that is already in order comes back unchanged. */
  lemma {:induction false} SortOfSorted<T>(s: seq<T>, le: (T, T) -> bool)
    requires Sorted(s, le)
    ensures Sort(s, le) == s
  {
    if s != [] {
      var init := s[..|s| - 1];
      assert Sorted(init, le);
      SortOfSorted(init, le);
      InsertAtEnd(init, s[|s| - 1], le);
      assert init + [s[|s| - 1]] == s;
    }
  }

  lemma {:induction false} InsertAtEnd<T>(s: seq<T>, x: T, le: (T, T) -> bool)
    requires forall i :: 0 <= i < |s| ==> le(s[i], x)
    ensures Insert(s, x, le) == s + [x]
  {
    if s != [] {
      InsertAtEnd(s[1..], x, le);
      assert s == [s[0]] + s[1..];
    }
  }

  lemma {:induction false} SortSorted<T(!new)>(s: seq<T>, le: (T, T) -> bool)
    requires TotalPreorder(le)
    ensures Sorted(Sort(s, le), le)
  {
    if s != [] {
      SortSorted(s[..|s| - 1], le);
      InsertSorted(Sort(s[..|s| - 1], le), s[|s| - 1], le);
    }
  }
}
