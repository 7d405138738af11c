/** Python's `dict` with string keys: a finite map that remembers the order
    in which keys were first inserted. Overwriting an existing key keeps its
    position; a new key goes at the end. */
module OrderedDict {
  import opened Wrappers

  datatype Entry<V> = Entry(key: string, val: V)

  type Dict<V> = seq<Entry<V>>

  /** The keys in insertion order (`list(d)`). */
  function Keys<V>(d: Dict<V>): seq<string> {
    seq(|d|, i requires 0 <= i < |d| => d[i].key)
  }

  lemma KeysSnoc<V>(d: Dict<V>, e: Entry<V>)
    ensures Keys(d + [e]) == Keys(d) + [e.key]
  {
  }

  lemma KeysInit<V>(d: Dict<V>)
    requires d != []
    ensures Keys(d) == Keys(d[..|d| - 1]) + [d[|d| - 1].key]
  {
    assert d == d[..|d| - 1] + [d[|d| - 1]];
    KeysSnoc(d[..|d| - 1], d[|d| - 1]);
  }

  /** A Python dict never holds a key twice. */
  predicate UniqueKeys<V>(d: Dict<V>) {
    forall i, j :: 0 <= i < j < |d| ==> d[i].key != d[j].key
  }

  /** The position of `k` in `d`. */
  function IndexOf<V>(d: Dict<V>, k: string): (i: nat)
    requires k in Keys(d)
    ensures i < |d| && d[i].key == k
    ensures forall j :: 0 <= j < i ==> d[j].key != k
  {
    if d[0].key == k then 0
    else
      assert Keys(d) == [d[0].key] + Keys(d[1..]);
      IndexOf(d[1..], k) + 1
  }

  lemma IndexOfUnique<V>(d: Dict<V>, k: string, i: nat)
    requires UniqueKeys(d) && i < |d| && d[i].key == k
    ensures k in Keys(d) && IndexOf(d, k) == i
  {
    assert Keys(d)[i] == k;
  }

  /** `d[k]`. */
  function Get<V>(d: Dict<V>, k: string): V
    requires k in Keys(d)
  {
    d[IndexOf(d, k)].val
  }

  /** `d[k] = v`. */
  function Put<V>(d: Dict<V>, k: string, v: V): (r: Dict<V>)
    ensures Keys(r) == if k in Keys(d) then Keys(d) else Keys(d) + [k]
    ensures k in Keys(r) && Get(r, k) == v
    ensures forall k' :: k' in Keys(d) && k' != k ==> Get(r, k') == Get(d, k')
    ensures UniqueKeys(d) ==> UniqueKeys(r)
  {
    if k in Keys(d) then
      var i := IndexOf(d, k);
      var r := d[i := Entry(k, v)];
      assert Keys(r) == Keys(d);
      PutOther(d, r, k);
      r
    else
      var r := d + [Entry(k, v)];
      KeysSnoc(d, Entry(k, v));
      assert forall j :: 0 <= j < |d| ==> d[j].key != k by {
        forall j | 0 <= j < |d| ensures d[j].key != k { assert Keys(d)[j] == d[j].key; }
      }
      assert IndexOf(r, k) == |d|;
      PutOther(d, r, k);
      r
  }

  lemma PutOther<V>(d: Dict<V>, r: Dict<V>, k: string)
    requires |d| <= |r|
    requires forall j :: 0 <= j < |d| && d[j].key != k ==> r[j] == d[j]
    requires forall j :: 0 <= j < |d| ==> r[j].key == d[j].key
    ensures forall k' :: k' in Keys(d) && k' != k ==> k' in Keys(r) && Get(r, k') == Get(d, k')
  {
    forall k' | k' in Keys(d) && k' != k ensures k' in Keys(r) && Get(r, k') == Get(d, k') {
      var i := IndexOf(d, k');
      assert Keys(r)[i] == k';
      var i' := IndexOf(r, k');
      assert i' == i;
    }
  }

  /** `d.update(e)`: the entries of `e` put into `d` one by one, in order. */
  function Update<V>(d: Dict<V>, e: Dict<V>): (r: Dict<V>)
    ensures forall k :: k in Keys(r) <==> k in Keys(d) || k in Keys(e)
    ensures forall k :: k in Keys(d) && k !in Keys(e) ==> Get(r, k) == Get(d, k)
    ensures UniqueKeys(e) ==> forall k :: k in Keys(e) ==> Get(r, k) == Get(e, k)
    ensures UniqueKeys(d) ==> UniqueKeys(r)
    decreases |e|
  {
    if e == [] then d
    else
      var init := e[..|e| - 1];
      var last := e[|e| - 1];
      KeysInit(e);
      UpdateLast(e);
      Put(Update(d, init), last.key, last.val)
  }

  lemma UpdateLast<V>(e: Dict<V>)
    requires e != []
    ensures var init := e[..|e| - 1];
      e[|e| - 1].key in Keys(e) && (forall k :: k in Keys(init) ==> k in Keys(e)) &&
      UniqueKeys(e) ==>
        UniqueKeys(init) && e[|e| - 1].key !in Keys(init) &&
        Get(e, e[|e| - 1].key) == e[|e| - 1].val &&
        forall k :: k in Keys(init) ==> Get(e, k) == Get(init, k)
  {
    var init := e[..|e| - 1];
    KeysInit(e);
    if UniqueKeys(e) {
      IndexOfUnique(e, e[|e| - 1].key, |e| - 1);
      forall k | k in Keys(init) ensures Get(e, k) == Get(init, k) {
        var i := IndexOf(init, k);
        IndexOfUnique(e, k, i);
      }
    }
  }

  /** `d = {}` followed by `d[e.key] = e.val` for each entry in turn. */
  function PutAll<V>(es: seq<Entry<V>>): (d: Dict<V>)
    ensures UniqueKeys(d)
    decreases |es|
  {
    if es == [] then [] else Put(PutAll(es[..|es| - 1]), es[|es| - 1].key, es[|es| - 1].val)
  }

  /** The keys that end up in the dict are the keys put ... */
  lemma {:induction false} PutAllKeys<V>(es: seq<Entry<V>>, k: string)
    ensures k in Keys(PutAll(es)) <==> k in Keys(es)
    decreases |es|
  {
    if es != [] {
      var init := es[..|es| - 1];
      var last := es[|es| - 1];
      PutAllKeys(init, k);
      KeysInit(es);
      assert PutAll(es) == Put(PutAll(init), last.key, last.val);
      assert k in Keys(es) <==> k in Keys(init) || k == last.key;
    }
  }

  /** ... and each one holds the value of its last put. */
  lemma {:induction false} PutAllLastWins<V>(es: seq<Entry<V>>, i: nat)
    requires i < |es|
    requires forall j :: i < j < |es| ==> es[j].key != es[i].key
    ensures es[i].key in Keys(PutAll(es)) && Get(PutAll(es), es[i].key) == es[i].val
    decreases |es|
  {
    var init := es[..|es| - 1];
    if i < |es| - 1 {
      PutAllLastWins(init, i);
    }
  }

  /** Putting the entries of a dict one by one rebuilds that dict, order included. */
  lemma {:induction false} PutAllOfDict<V>(d: Dict<V>)
    requires UniqueKeys(d)
    ensures PutAll(d) == d
    decreases |d|
  {
    if d != [] {
      var init := d[..|d| - 1];
      PutAllOfDict(init);
      var last := d[|d| - 1];
      assert last.key !in Keys(init) by {
        forall j | 0 <= j < |init| ensures Keys(init)[j] != last.key {
          assert d[j].key != d[|d| - 1].key;
        }
      }
      assert init + [Entry(last.key, last.val)] == d;
    }
  }

  /** The entries `f` yields for the items of `xs`, in order, skipping the
      items it yields nothing for. */
  function Collect<T, V>(xs: seq<T>, f: T -> Option<Entry<V>>): (es: seq<Entry<V>>)
    ensures |es| <= |xs|
    decreases |xs|
  {
    if xs == [] then []
    else
      var e := f(xs[|xs| - 1]);
      Collect(xs[..|xs| - 1], f) + if e.Some? then [e.value] else []
  }

  lemma CollectSnoc<T, V>(xs: seq<T>, f: T -> Option<Entry<V>>, i: nat)
    requires i < |xs|
    ensures var e := f(xs[i]);
      Collect(xs[..i + 1], f) == Collect(xs[..i], f) + if e.Some? then [e.value] else []
  {
    assert xs[..i + 1][..i] == xs[..i];
  }

  /** The loop `for x in xs: e = f(x); if e: d[e.key] = e.val` on a dict
      that starts empty. */
  method PutEach<T, V>(xs: seq<T>, f: T -> Option<Entry<V>>) returns (d: Dict<V>)
    ensures d == PutAll(Collect(xs, f))
  {
    d := [];
    var i := 0;
    while i < |xs|
      invariant 0 <= i <= |xs|
      invariant d == PutAll(Collect(xs[..i], f))
    {
      d := PutOne(xs, f, i, d);
      i := i + 1;
    }
    assert xs[..i] == xs;
  }

  /** One turn of that loop. */
  method PutOne<T, V>(xs: seq<T>, f: T -> Option<Entry<V>>, i: nat, d0: Dict<V>) returns (d: Dict<V>)
    requires i < |xs| && d0 == PutAll(Collect(xs[..i], f))
    ensures d == PutAll(Collect(xs[..i + 1], f))
  {
    var entry := f(xs[i]);
    CollectSnoc(xs, f, i);
    ghost var es := Collect(xs[..i], f);
    d := d0;
    if entry.Some? {
      ghost var es' := es + [entry.value];
      assert es'[..|es'| - 1] == es;
      d := Put(d, entry.value.key, entry.value.val);
    } else {
      assert Collect(xs[..i + 1], f) == es;
    }
  }

  /** Item `i` yields an entry for key `k`. */
  predicate Yields<T, V>(xs: seq<T>, f: T -> Option<Entry<V>>, i: int, k: string) {
    0 <= i < |xs| && f(xs[i]).Some? && f(xs[i]).value.key == k
  }

  lemma {:induction false} CollectKeys<T, V>(xs: seq<T>, f: T -> Option<Entry<V>>, k: string)
    ensures k in Keys(Collect(xs, f)) <==> exists i :: Yields(xs, f, i, k)
    decreases |xs|
  {
    if xs != [] {
      var n := |xs| - 1;
      var init := xs[..n];
      var e := f(xs[n]);
      var tail: seq<Entry<V>> := if e.Some? then [e.value] else [];
      CollectKeys(init, f, k);
      assert Keys(Collect(xs, f)) == Keys(Collect(init, f)) + Keys(tail);
      if k in Keys(Collect(xs, f)) {
        if k in Keys(Collect(init, f)) {
          var i :| Yields(init, f, i, k);
          assert init[i] == xs[i];
          assert Yields(xs, f, i, k);
        } else {
          assert Yields(xs, f, n, k);
        }
      }
      if exists i :: Yields(xs, f, i, k) {
        var i :| Yields(xs, f, i, k);
        if i < n {
          assert init[i] == xs[i];
          assert Yields(init, f, i, k);
        } else {
          assert Keys(tail) == [k];
        }
      }
    }
  }

  /** When `f` yields an entry for every item, `Collect` lists exactly those. */
  lemma {:induction false} CollectAllSome<T, V>(xs: seq<T>, f: T -> Option<Entry<V>>, es: seq<Entry<V>>)
    requires |xs| == |es|
    requires forall i :: 0 <= i < |xs| ==> f(xs[i]) == Some(es[i])
    ensures Collect(xs, f) == es
    decreases |xs|
  {
    if xs != [] {
      var n := |xs| - 1;
      CollectAllSome(xs[..n], f, es[..n]);
      assert es == es[..n] + [es[n]];
    }
  }

  lemma KeysCons<V>(e: Entry<V>, d: Dict<V>)
    ensures Keys([e] + d) == [e.key] + Keys(d)
  {
  }

  /** Looking up in `[e] + d` finds `e` first. */
  lemma GetCons<V>(e: Entry<V>, d: Dict<V>, k: string)
    requires k in Keys([e] + d)
    ensures e.key != k ==> k in Keys(d)
    ensures Get([e] + d, k) == if e.key == k then e.val else Get(d, k)
  {
    KeysCons(e, d);
    if e.key != k {
      assert ([e] + d)[1..] == d;
    }
  }

  /** Every entry of `d` satisfies `P`. */
  predicate AllEntries<V>(d: seq<Entry<V>>, P: Entry<V> -> bool) {
    forall i :: 0 <= i < |d| ==> P(d[i])
  }

  /** The dict comprehension `{k: v for k, v in d.items() if not drop(k)}`:
      the entries whose key `drop` rejects are left out, the rest keep
      their order. */
  function Without<V>(d: Dict<V>, drop: string -> bool): (r: Dict<V>)
    ensures |r| <= |d|
    decreases |d|
  {
    if d == [] then []
    else (if drop(d[0].key) then [] else [d[0]]) + Without(d[1..], drop)
  }

  /** The filtered dict holds exactly the keys `drop` accepts, each with
      its original value. */
  lemma {:induction false} WithoutSpec<V>(d: Dict<V>, drop: string -> bool, k: string)
    ensures k in Keys(Without(d, drop)) <==> k in Keys(d) && !drop(k)
    ensures k in Keys(Without(d, drop)) ==> Get(Without(d, drop), k) == Get(d, k)
    decreases |d|
  {
    if d != [] {
      var rest := Without(d[1..], drop);
      WithoutSpec(d[1..], drop, k);
      KeysCons(d[0], d[1..]);
      assert d == [d[0]] + d[1..];
      if drop(d[0].key) {
        assert Without(d, drop) == rest;
        if k in Keys(rest) {
          GetCons(d[0], d[1..], k);
        }
      } else {
        assert Without(d, drop) == [d[0]] + rest;
        KeysCons(d[0], rest);
        if k in Keys([d[0]] + rest) {
          GetCons(d[0], rest, k);
          GetCons(d[0], d[1..], k);
        }
      }
    }
  }

  lemma {:induction false} WithoutUnique<V>(d: Dict<V>, drop: string -> bool)
    requires UniqueKeys(d)
    ensures UniqueKeys(Without(d, drop))
    decreases |d|
  {
    if d != [] {
      var rest := Without(d[1..], drop);
      WithoutUnique(d[1..], drop);
      if !drop(d[0].key) {
        WithoutSpec(d[1..], drop, d[0].key);
        assert d[0].key !in Keys(d[1..]) by {
          forall j | 0 <= j < |d| - 1 ensures Keys(d[1..])[j] != d[0].key {
            assert d[j + 1].key != d[0].key;
          }
        }
        forall j | 0 <= j < |rest| ensures rest[j].key != d[0].key {
          assert Keys(rest)[j] == rest[j].key;
        }
      }
    }
  }

  /** Filtering keeps every property of the entries, and no kept key is
      one `drop` rejects. */
  lemma {:induction false} WithoutKeepsAll<V>(d: Dict<V>, drop: string -> bool, P: Entry<V> -> bool)
    requires AllEntries(d, P)
    ensures AllEntries(Without(d, drop), P)
    ensures forall i :: 0 <= i < |Without(d, drop)| ==> !drop(Without(d, drop)[i].key)
    decreases |d|
  {
    if d != [] {
      assert AllEntries(d[1..], P);
      WithoutKeepsAll(d[1..], drop, P);
    }
  }

  lemma PutKeepsAll<V>(d: Dict<V>, k: string, v: V, P: Entry<V> -> bool)
    requires AllEntries(d, P) && P(Entry(k, v))
    ensures AllEntries(Put(d, k, v), P)
  {
  }

  lemma {:induction false} PutAllKeepsAll<V>(es: seq<Entry<V>>, P: Entry<V> -> bool)
    requires AllEntries(es, P)
    ensures AllEntries(PutAll(es), P)
    decreases |es|
  {
    if es != [] {
      var n := |es| - 1;
      PutAllKeepsAll(es[..n], P);
      PutKeepsAll(PutAll(es[..n]), es[n].key, es[n].val, P);
    }
  }

  lemma {:induction false} UpdateKeepsAll<V>(d: Dict<V>, e: Dict<V>, P: Entry<V> -> bool)
    requires AllEntries(d, P) && AllEntries(e, P)
    ensures AllEntries(Update(d, e), P)
    decreases |e|
  {
    if e != [] {
      var n := |e| - 1;
      UpdateKeepsAll(d, e[..n], P);
      PutKeepsAll(Update(d, e[..n]), e[n].key, e[n].val, P);
    }
  }

  lemma {:induction false} CollectKeepsAll<T, V>(xs: seq<T>, f: T -> Option<Entry<V>>, P: Entry<V> -> bool)
    requires forall i :: 0 <= i < |xs| && f(xs[i]).Some? ==> P(f(xs[i]).value)
    ensures AllEntries(Collect(xs, f), P)
    decreases |xs|
  {
    if xs != [] {
      var n := |xs| - 1;
      assert forall i :: 0 <= i < n ==> xs[..n][i] == xs[i];
      CollectKeepsAll(xs[..n], f, P);
    }
  }

  /** `d[k] = v; d[k] = w` is `d[k] = w`. */
  lemma PutTwice<V>(d: Dict<V>, k: string, v: V, w: V)
    ensures Put(Put(d, k, v), k, w) == Put(d, k, w)
  {
    if k !in Keys(d) {
      var r := d + [Entry(k, v)];
      KeysSnoc(d, Entry(k, v));
      assert forall j :: 0 <= j < |d| ==> d[j].key != k by {
        forall j | 0 <= j < |d| ensures d[j].key != k { assert Keys(d)[j] == d[j].key; }
      }
      assert IndexOf(r, k) == |d|;
      assert r[|d| := Entry(k, w)] == d + [Entry(k, w)];
    }
  }

  /** A looked-up value belongs to an entry of the dict. */
  lemma GetAll<V>(d: Dict<V>, k: string, P: Entry<V> -> bool)
    requires AllEntries(d, P) && k in Keys(d)
    ensures P(Entry(k, Get(d, k)))
  {
    assert d[IndexOf(d, k)] == Entry(k, Get(d, k));
  }

  lemma PutKeys<V>(d: Dict<V>, k: string, v: V, k': string)
    ensures k' in Keys(Put(d, k, v)) <==> k' in Keys(d) || k' == k
  {
    assert k' in Keys(d) + [k] <==> k' in Keys(d) || k' == k;
  }

  /** `{}.update(e)` is `e` itself when `e` is a dict. */
  lemma {:induction false} UpdateEmpty<V>(e: Dict<V>)
    requires UniqueKeys(e)
    ensures Update([], e) == e
  {
    UpdateIsPutAll(e);
    PutAllOfDict(e);
  }

  lemma {:induction false} UpdateIsPutAll<V>(e: Dict<V>)
    ensures Update([], e) == PutAll(e)
    decreases |e|
  {
    if e != [] {
      UpdateIsPutAll(e[..|e| - 1]);
    }
  }
}
