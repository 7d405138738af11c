/** The adjacent-merge report: two qualified rules that follow each other
    in the flattened stylesheet, in the same at-rule context, with the
    same declarations in the same order, could be merged into one rule. */
module CssAdjacent {
  import opened Wrappers
  import opened Strings
  import opened CssAst
  import opened Lists

  /** One element of a fingerprint: `(lower_name, stripped value, important)`. */
  datatype Fp = Fp(name: string, value: string, important: bool)

  /** A rule of the flat list. */
  datatype FlatEntry = FlatEntry(ctx: string, selector: string, line: nat, fingerprint: seq<Fp>)

  /** A merge candidate: the context and the two rules, earlier first. */
  datatype Candidate = Candidate(ctx: string, selectors: seq<string>, lines: seq<nat>)

  datatype Report = Report(count: nat, candidates: seq<Candidate>)

  function FpOf(d: Decl): Fp {
    Fp(d.name, d.value, d.important)
  }

  function FpList(ds: seq<Decl>): (r: seq<Fp>)
    ensures |r| == |ds|
    ensures forall k :: 0 <= k < |ds| ==> r[k] == FpOf(ds[k])
  {
    seq(|ds|, k requires 0 <= k < |ds| => FpOf(ds[k]))
  }

  /** `_decl_fingerprint(rule)`. */
  function Fingerprint(items: Option<seq<Item>>): seq<Fp> {
    FpList(DeclsOf(items))
  }

  /** The fingerprint keeps the declarations in their order, with their
      stripped values; it is empty for a rule without content. */
  lemma FingerprintOfDeclarations(items: seq<Item>)
    requires forall i :: 0 <= i < |items| ==> items[i].Declaration?
    ensures |Fingerprint(Some(items))| == |items|
    ensures forall i :: 0 <= i < |items| ==>
      Fingerprint(Some(items))[i] == Fp(items[i].name, Trim(items[i].value), items[i].important)
    ensures Fingerprint(None) == []
  {
    DeclListOfDeclarations(items);
  }

  /** Items that are not declarations do not change the fingerprint. */
  lemma FingerprintSkipsOther(a: seq<Item>, b: seq<Item>)
    ensures Fingerprint(Some(a + [OtherItem] + b)) == Fingerprint(Some(a + b))
  {
    DeclListSkipsOther(a, b);
  }

  /** The loop of `_decl_fingerprint`. */
  method DeclFingerprint(items: Option<seq<Item>>) returns (out: seq<Fp>)
    ensures out == Fingerprint(items)
  {
    if items.None? {
      return [];
    }
    var its := items.value;
    out := [];
    var i := 0;
    while i < |its|
      invariant 0 <= i <= |its|
      invariant out == FpList(DeclList(its[..i]))
    {
      out := FingerprintTurn(its, i, out);
      i := i + 1;
    }
    assert its[..i] == its;
  }

  /** One turn of that loop: a declaration adds its element. */
  method FingerprintTurn(its: seq<Item>, i: nat, out0: seq<Fp>) returns (out: seq<Fp>)
    requires i < |its| && out0 == FpList(DeclList(its[..i]))
    ensures out == FpList(DeclList(its[..i + 1]))
  {
    FingerprintStep(its, i);
    out := out0;
    var d := its[i];
    if d.Declaration? {
      out := out + [Fp(d.name, Trim(d.value), d.important)];
    }
  }

  lemma FpListAppend(a: seq<Decl>, b: seq<Decl>)
    ensures FpList(a + b) == FpList(a) + FpList(b)
  {
    var l := FpList(a + b);
    var r := FpList(a) + FpList(b);
    forall k | 0 <= k < |l| ensures l[k] == r[k] {
      if k < |a| {
        assert (a + b)[k] == a[k];
      } else {
        assert (a + b)[k] == b[k - |a|];
      }
    }
  }

  /** One turn of that loop. */
  lemma FingerprintStep(its: seq<Item>, i: nat)
    requires i < |its|
    ensures FpList(DeclList(its[..i + 1])) == FpList(DeclList(its[..i])) +
      (if its[i].Declaration? then [Fp(its[i].name, Trim(its[i].value), its[i].important)] else [])
  {
    var pre := its[..i + 1];
    assert pre[..i] == its[..i] && pre[i] == its[i];
    var tail: seq<Decl> := if its[i].Declaration? then [DeclOf(its[i])] else [];
    assert DeclList(pre) == DeclList(its[..i]) + tail;
    FpListAppend(DeclList(its[..i]), tail);
  }

  /** The entry a walked rule would give. */
  function EntryOf(w: Walked): FlatEntry {
    FlatEntry(w.ctx, Trim(w.prelude), w.line, Fingerprint(w.items))
  }

  /** A walked rule enters the flat list unless its selector or its
      fingerprint is empty. */
  predicate Kept(w: Walked) {
    Trim(w.prelude) != [] && Fingerprint(w.items) != []
  }

  /** The flat list: the entries of the kept walked rules, in order. */
  function Flat(ws: seq<Walked>): seq<FlatEntry> {
    FilterMap(ws, |ws|, Kept, EntryOf)
  }

  /** An entry is in the flat list iff it comes from a kept rule; so no
      entry has an empty selector or an empty fingerprint. */
  lemma FlatIff(ws: seq<Walked>, e: FlatEntry)
    ensures e in Flat(ws) <==> exists i :: 0 <= i < |ws| && Kept(ws[i]) && e == EntryOf(ws[i])
    ensures e in Flat(ws) ==> e.selector != [] && e.fingerprint != []
  {
    FilterMapIff(ws, |ws|, Kept, EntryOf, e);
  }

  /** The flat list keeps the walk's order. */
  lemma FlatOrder(ws: seq<Walked>, i: nat, j: nat)
    requires i < j < |ws| && Kept(ws[i]) && Kept(ws[j])
    ensures exists p, q :: 0 <= p < q < |Flat(ws)| && Flat(ws)[p] == EntryOf(ws[i]) && Flat(ws)[q] == EntryOf(ws[j])
  {
    FilterMapOrder(ws, |ws|, Kept, EntryOf, i, j);
    var r := FilterMap(ws, |ws|, Kept, EntryOf);
    var p, q :| 0 <= p < q < |r| && r[p] == EntryOf(ws[i]) && r[q] == EntryOf(ws[j]);
    assert Flat(ws)[p] == EntryOf(ws[i]) && Flat(ws)[q] == EntryOf(ws[j]);
  }

  /** The flat-list loop of `main`. */
  method BuildFlat(ws: seq<Walked>) returns (flat: seq<FlatEntry>)
    ensures flat == Flat(ws)
  {
    flat := [];
    var i := 0;
    while i < |ws|
      invariant 0 <= i <= |ws|
      invariant flat == FilterMap(ws, i, Kept, EntryOf)
    {
      flat := AddFlat(ws, i, flat);
      i := i + 1;
    }
  }

  /** One turn of that loop. */
  method AddFlat(ws: seq<Walked>, i: nat, flat0: seq<FlatEntry>) returns (flat: seq<FlatEntry>)
    requires i < |ws| && flat0 == FilterMap(ws, i, Kept, EntryOf)
    ensures flat == FilterMap(ws, i + 1, Kept, EntryOf)
  {
    var here := FlatStep(ws[i]);
    flat := flat0 + here;
  }

  /** The body of that loop: the entry of one walked rule, if kept. */
  method FlatStep(w: Walked) returns (here: seq<FlatEntry>)
    ensures here == if Kept(w) then [EntryOf(w)] else []
  {
    here := [];
    var sel := Trim(w.prelude);
    if sel != [] {
      var fp := DeclFingerprint(w.items);
      if fp != [] {
        here := [FlatEntry(w.ctx, sel, w.line, fp)];
      }
    }
  }

  /** Neighbours `i` and `i + 1` of the flat list are merge candidates. */
  predicate Mergeable(flat: seq<FlatEntry>, i: nat)
    requires i + 1 < |flat|
  {
    flat[i].ctx == flat[i + 1].ctx && flat[i].fingerprint == flat[i + 1].fingerprint
  }

  function PairAt(flat: seq<FlatEntry>, i: nat): Candidate
    requires i + 1 < |flat|
  {
    Candidate(flat[i + 1].ctx, [flat[i].selector, flat[i + 1].selector], [flat[i].line, flat[i + 1].line])
  }

  /** The number of pairs `zip(flat, flat[1:])` yields. */
  function PairCount(flat: seq<FlatEntry>): nat {
    if flat == [] then 0 else |flat| - 1
  }

  /** The candidates among the first `n` pairs. */
  function Pairs(flat: seq<FlatEntry>, n: nat): (r: seq<Candidate>)
    requires n <= PairCount(flat)
    ensures |r| <= n
  {
    if n == 0 then []
    else Pairs(flat, n - 1) + (if Mergeable(flat, n - 1) then [PairAt(flat, n - 1)] else [])
  }

  /** A candidate is reported iff it is the pair of two consecutive flat
      entries with equal context and equal fingerprint. */
  lemma {:induction false} PairsIff(flat: seq<FlatEntry>, n: nat, c: Candidate)
    requires n <= PairCount(flat)
    ensures c in Pairs(flat, n) <==> exists i :: 0 <= i < n && Mergeable(flat, i) && c == PairAt(flat, i)
  {
    if n > 0 {
      PairsIff(flat, n - 1, c);
      if Mergeable(flat, n - 1) && c == PairAt(flat, n - 1) {
        assert c in Pairs(flat, n);
      }
    }
  }

  /** `c` lists the selectors and lines of entries `i` and `i + 1`, which
      share their context and their fingerprint. */
  predicate SameRulePair(flat: seq<FlatEntry>, i: nat, c: Candidate)
    requires i + 1 < |flat|
  {
    c.selectors == [flat[i].selector, flat[i + 1].selector] && c.lines == [flat[i].line, flat[i + 1].line] &&
    c.ctx == flat[i].ctx == flat[i + 1].ctx && flat[i].fingerprint == flat[i + 1].fingerprint
  }

  /** At most `max(0, len(flat) - 1)` candidates; each names two
      selectors and two lines, the earlier rule first. */
  lemma PairsShape(flat: seq<FlatEntry>, c: Candidate)
    requires c in Pairs(flat, PairCount(flat))
    ensures |Pairs(flat, PairCount(flat))| <= if |flat| == 0 then 0 else |flat| - 1
    ensures |c.selectors| == 2 && |c.lines| == 2
    ensures exists i :: 0 <= i < PairCount(flat) && SameRulePair(flat, i, c)
  {
    PairsIff(flat, PairCount(flat), c);
    var i :| 0 <= i < PairCount(flat) && Mergeable(flat, i) && c == PairAt(flat, i);
    assert SameRulePair(flat, i, c);
  }

  /** The pairing loop of `main`. */
  method FindPairs(flat: seq<FlatEntry>) returns (candidates: seq<Candidate>)
    ensures candidates == Pairs(flat, PairCount(flat))
  {
    candidates := [];
    var i := 0;
    while i < PairCount(flat)
      invariant 0 <= i <= PairCount(flat)
      invariant candidates == Pairs(flat, i)
    {
      var prev, cur := flat[i], flat[i + 1];
      if prev.ctx == cur.ctx && prev.fingerprint == cur.fingerprint {
        candidates := candidates + [Candidate(cur.ctx, [prev.selector, cur.selector], [prev.line, cur.line])];
      }
      i := i + 1;
    }
  }

  /** The candidates of a whole stylesheet. */
  function AllCandidates(stylesheet: seq<Rule>): seq<Candidate> {
    var flat := Flat(WalkRules(stylesheet, ""));
    Pairs(flat, PairCount(flat))
  }

  /** `main` without the file I/O: the count is the list's length. */
  method Run(stylesheet: seq<Rule>) returns (report: Report)
    ensures report == Report(|AllCandidates(stylesheet)|, AllCandidates(stylesheet))
  {
    var ws := WalkRules(stylesheet, "");
    var flat := BuildFlat(ws);
    var candidates := FindPairs(flat);
    report := Report(|candidates|, candidates);
  }

  /** Two rules directly after each other at the top level, with the same
      declarations and non-empty selectors, are a candidate. */
  lemma TwoIdenticalRules(s1: string, s2: string, items: seq<Item>, l1: nat, l2: nat)
    requires Trim(s1) != [] && Trim(s2) != [] && Fingerprint(Some(items)) != []
    ensures AllCandidates([QualifiedRule(s1, Some(items), l1), QualifiedRule(s2, Some(items), l2)]) ==
      [Candidate("", [Trim(s1), Trim(s2)], [l1, l2])]
  {
    var w1, w2 := Walked("", s1, Some(items), l1), Walked("", s2, Some(items), l2);
    WalkTwo(s1, s2, Some(items), l1, l2);
    FilterMapTwo(w1, w2, Kept, EntryOf);
    TwoEntries(EntryOf(w1), EntryOf(w2));
  }

  lemma WalkTwo(s1: string, s2: string, items: Option<seq<Item>>, l1: nat, l2: nat)
    ensures WalkRules([QualifiedRule(s1, items, l1), QualifiedRule(s2, items, l2)], "") ==
      [Walked("", s1, items, l1), Walked("", s2, items, l2)]
  {
    WalkFlat([QualifiedRule(s1, items, l1), QualifiedRule(s2, items, l2)]);
  }

  lemma TwoEntries(e1: FlatEntry, e2: FlatEntry)
    requires e1.ctx == e2.ctx && e1.fingerprint == e2.fingerprint
    ensures Pairs([e1, e2], PairCount([e1, e2])) == [Candidate(e2.ctx, [e1.selector, e2.selector], [e1.line, e2.line])]
  {
    assert Mergeable([e1, e2], 0);
  }
}
