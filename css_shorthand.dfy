/** The shorthand report: a qualified rule that sets all four sides of
    `padding` or `margin` with one importance could use the shorthand. */
module CssShorthand {
  import opened Wrappers
  import opened Strings
  import opened OrderedDict
  import opened CssAst

  /** The properties examined, in the order `main` examines them. */
  const BASES: seq<string> := ["padding", "margin"]

  datatype Candidate = Candidate(property: string, important: bool, values: Dict<string>, lines: Dict<nat>)
  datatype Found = Found(ctx: string, selector: string, candidate: Candidate)

  /** `sorted({f"{base}-{s}" for s in sides})`: the four side properties
      in string order, which is the same for every base. */
  function SideKeys(base: string): seq<string> {
    [base + "-bottom", base + "-left", base + "-right", base + "-top"]
  }

  /** With a common prefix, strings compare as their rests do. */
  lemma {:induction false} StrLeCommonPrefix(p: string, a: string, b: string)
    requires StrLe(a, b)
    ensures StrLe(p + a, p + b)
    decreases |p|
  {
    if p != [] {
      assert p + a != [] && p + b != [];
      assert (p + a)[0] == p[0] == (p + b)[0];
      assert (p + a)[1..] == p[1..] + a;
      assert (p + b)[1..] == p[1..] + b;
      StrLeCommonPrefix(p[1..], a, b);
    } else {
      assert p + a == a && p + b == b;
    }
  }

  /** `SideKeys` is in the order `sorted` gives. */
  lemma SideKeysSorted(base: string)
    ensures forall i, j :: 0 <= i < j < 4 ==> StrLe(SideKeys(base)[i], SideKeys(base)[j])
  {
    var p := base + "-";
    var suffixes := ["bottom", "left", "right", "top"];
    forall i, j | 0 <= i < j < 4 ensures StrLe(SideKeys(base)[i], SideKeys(base)[j]) {
      assert StrLe(suffixes[i], suffixes[j]);
      StrLeCommonPrefix(p, suffixes[i], suffixes[j]);
      assert SideKeys(base)[i] == p + suffixes[i];
      assert SideKeys(base)[j] == p + suffixes[j];
    }
  }

  /** All four sides are declared. */
  predicate AllSides(decls: seq<Decl>, base: string) {
    forall i :: 0 <= i < 4 ==> LastIndex(decls, SideKeys(base)[i]) >= 0
  }

  /** The last declaration of side `i`. */
  function LastSide(decls: seq<Decl>, base: string, i: nat): Decl
    requires AllSides(decls, base) && i < 4
  {
    decls[LastIndex(decls, SideKeys(base)[i])]
  }

  /** The last declarations of the four sides share one importance. */
  predicate OneImportance(decls: seq<Decl>, base: string)
    requires AllSides(decls, base)
  {
    forall i :: 0 <= i < 4 ==> LastSide(decls, base, i).important == LastSide(decls, base, 0).important
  }

  /** `{last[k].important for k in keys}`. */
  function Importances(decls: seq<Decl>, base: string): set<bool>
    requires AllSides(decls, base)
  {
    set i | 0 <= i < 4 :: LastSide(decls, base, i).important
  }

  /** The set has one element exactly when the four agree. */
  lemma ImportancesSingleton(decls: seq<Decl>, base: string)
    requires AllSides(decls, base)
    ensures |Importances(decls, base)| == 1 <==> OneImportance(decls, base)
    ensures OneImportance(decls, base) ==> Importances(decls, base) == {LastSide(decls, base, 0).important}
  {
    var imps := Importances(decls, base);
    var b := LastSide(decls, base, 0).important;
    assert b in imps;
    if OneImportance(decls, base) {
      assert imps == {b};
    } else {
      var i :| 0 <= i < 4 && LastSide(decls, base, i).important != b;
      assert LastSide(decls, base, i).important in imps;
      assert !b in imps;
      assert imps == {b, !b};
    }
  }

  /** The candidate the four last side declarations make. */
  function MakeCandidate(decls: seq<Decl>, base: string, imp: bool): Candidate
    requires AllSides(decls, base)
  {
    var ks := SideKeys(base);
    Candidate(base, imp,
      seq(4, i requires 0 <= i < 4 => Entry(ks[i], LastSide(decls, base, i).value)),
      seq(4, i requires 0 <= i < 4 => Entry(ks[i], LastSide(decls, base, i).line)))
  }

  /** `_four_side_candidates(decls, base)`: a candidate when all four
      sides are declared and their last declarations agree on importance. */
  function FourSide(decls: seq<Decl>, base: string): (r: seq<Candidate>)
    ensures |r| <= 1
    ensures forall k :: 0 <= k < |r| ==> r[k].property == base
  {
    if !AllSides(decls, base) || !OneImportance(decls, base) then []
    else [MakeCandidate(decls, base, LastSide(decls, base, 0).important)]
  }

  /** At most one candidate; one exactly when all four sides are declared
      with one importance; and then its values and lines are those of the
      last declaration of each side, keyed by the side names in order. */
  lemma FourSideSpec(decls: seq<Decl>, base: string)
    ensures |FourSide(decls, base)| <= 1
    ensures |FourSide(decls, base)| == 1 <==> AllSides(decls, base) && OneImportance(decls, base)
    ensures |FourSide(decls, base)| == 1 ==>
      var c := FourSide(decls, base)[0];
      c.property == base && c.important == LastSide(decls, base, 0).important &&
      Keys(c.values) == SideKeys(base) && Keys(c.lines) == SideKeys(base) &&
      forall i :: 0 <= i < 4 ==>
        c.values[i].val == LastSide(decls, base, i).value && c.lines[i].val == LastSide(decls, base, i).line &&
        IsLast(decls, LastIndex(decls, SideKeys(base)[i]), SideKeys(base)[i])
  {
    if AllSides(decls, base) {
      ImportancesSingleton(decls, base);
      if OneImportance(decls, base) {
        var c := FourSide(decls, base)[0];
        assert Keys(c.values) == SideKeys(base);
        assert Keys(c.lines) == SideKeys(base);
      }
    }
  }

  function Identity(d: Decl): Decl {
    d
  }

  /** The loop `last[d.name] = d`. */
  method LastDecls(decls: seq<Decl>) returns (last: Dict<Decl>)
    ensures last == LastBy(decls, Identity)
  {
    last := [];
    var i := 0;
    while i < |decls|
      invariant 0 <= i <= |decls|
      invariant last == LastBy(decls[..i], Identity)
    {
      LastBySnoc(decls, Identity, i);
      last := Put(last, decls[i].name, decls[i]);
      i := i + 1;
    }
    assert decls[..i] == decls;
  }

  /** What that dict says about the four sides. */
  lemma LastDeclsSides(decls: seq<Decl>, base: string, last: Dict<Decl>)
    requires last == LastBy(decls, Identity)
    ensures (forall k :: 0 <= k < 4 ==> SideKeys(base)[k] in Keys(last)) <==> AllSides(decls, base)
    ensures AllSides(decls, base) ==> forall k :: 0 <= k < 4 ==> Get(last, SideKeys(base)[k]) == LastSide(decls, base, k)
  {
    forall k | 0 <= k < 4
      ensures SideKeys(base)[k] in Keys(last) <==> LastIndex(decls, SideKeys(base)[k]) >= 0
      ensures SideKeys(base)[k] in Keys(last) ==> Get(last, SideKeys(base)[k]) == decls[LastIndex(decls, SideKeys(base)[k])]
    {
      LastBySpec(decls, Identity, SideKeys(base)[k]);
    }
  }

  /** All four side names are keys of the dict. */
  predicate HasSides(last: Dict<Decl>, base: string) {
    forall k :: 0 <= k < 4 ==> SideKeys(base)[k] in Keys(last)
  }

  /** `{last[k].important for k in keys}`. */
  function DictImportances(last: Dict<Decl>, base: string): set<bool>
    requires HasSides(last, base)
  {
    set k | 0 <= k < 4 :: Get(last, SideKeys(base)[k]).important
  }

  /** The candidate built from the dict: `{k: last[k].value for k in
      sorted(keys)}` and the same for the lines. */
  function DictCandidate(last: Dict<Decl>, base: string, imp: bool): Candidate
    requires HasSides(last, base)
  {
    var ks := SideKeys(base);
    Candidate(base, imp,
      seq(4, k requires 0 <= k < 4 => Entry(ks[k], Get(last, ks[k]).value)),
      seq(4, k requires 0 <= k < 4 => Entry(ks[k], Get(last, ks[k]).line)))
  }

  /** Read from the dict of last declarations, these are the importance
      set and the candidate of the specification. */
  lemma DictAgrees(decls: seq<Decl>, base: string, last: Dict<Decl>, imp: bool)
    requires last == LastBy(decls, Identity) && HasSides(last, base)
    ensures AllSides(decls, base)
    ensures DictImportances(last, base) == Importances(decls, base)
    ensures DictCandidate(last, base, imp) == MakeCandidate(decls, base, imp)
  {
    LastDeclsSides(decls, base, last);
  }

  /** The function as the source computes it: the last declaration of
      every name, the subset test, the importance set and the two dicts
      in sorted key order. */
  method FourSideCandidates(decls: seq<Decl>, base: string) returns (r: seq<Candidate>)
    ensures r == FourSide(decls, base)
  {
    var last := LastDecls(decls);
    var ks := SideKeys(base);
    LastDeclsSides(decls, base, last);
    if !(ks[0] in Keys(last) && ks[1] in Keys(last) && ks[2] in Keys(last) && ks[3] in Keys(last)) {
      assert !HasSides(last, base) by {
        assert !(ks[0] in Keys(last)) || !(ks[1] in Keys(last)) || !(ks[2] in Keys(last)) || !(ks[3] in Keys(last));
      }
      return [];
    }
    var imps := DictImportances(last, base);
    DictAgrees(decls, base, last, false);
    ImportancesSingleton(decls, base);
    if |imps| != 1 {
      return [];
    }
    var imp :| imp in imps;
    DictAgrees(decls, base, last, imp);
    r := [DictCandidate(last, base, imp)];
  }

  // ---------------------------------------------------------------------
  // The report.

  /** The candidates for the first `n` bases, in order. */
  function SideCands(decls: seq<Decl>, n: nat): (r: seq<Candidate>)
    requires n <= |BASES|
    ensures |r| <= n
    ensures forall k :: 0 <= k < |r| ==> r[k].property in BASES
  {
    if n == 0 then [] else SideCands(decls, n - 1) + FourSide(decls, BASES[n - 1])
  }

  /** Each candidate with the rule's context and selector. */
  function Tag(ctx: string, sel: string, cs: seq<Candidate>): (r: seq<Found>)
    ensures |r| == |cs|
    ensures forall k :: 0 <= k < |r| ==> r[k] == Found(ctx, sel, cs[k])
  {
    if cs == [] then [] else Tag(ctx, sel, cs[..|cs| - 1]) + [Found(ctx, sel, cs[|cs| - 1])]
  }

  lemma TagAppend(ctx: string, sel: string, a: seq<Candidate>, b: seq<Candidate>)
    ensures Tag(ctx, sel, a + b) == Tag(ctx, sel, a) + Tag(ctx, sel, b)
  {
    var l := Tag(ctx, sel, a + b);
    var r := Tag(ctx, sel, a) + Tag(ctx, sel, b);
    assert |l| == |r|;
    forall k | 0 <= k < |l| ensures l[k] == r[k] {
      if k < |a| {
        assert (a + b)[k] == a[k];
      } else {
        assert (a + b)[k] == b[k - |a|];
      }
    }
  }

  /** What one walked rule adds: nothing for an empty selector or a rule
      without declarations; otherwise the padding candidate, then the
      margin candidate. */
  function BlockFound(w: Walked): seq<Found> {
    var sel := Trim(w.prelude);
    var decls := DeclsOf(w.items);
    if sel == [] || decls == [] then [] else Tag(w.ctx, sel, SideCands(decls, |BASES|))
  }

  function AllFound(ws: seq<Walked>, n: nat, f: Walked -> seq<Found>): seq<Found>
    requires n <= |ws|
  {
    if n == 0 then [] else AllFound(ws, n - 1, f) + f(ws[n - 1])
  }

  datatype Report = Report(count: nat, candidates: seq<Found>)

  /** One step of tagging a list. */
  lemma TagSnoc(ctx: string, sel: string, cs: seq<Candidate>, c: nat)
    requires c < |cs|
    ensures Tag(ctx, sel, cs[..c + 1]) == Tag(ctx, sel, cs[..c]) + [Found(ctx, sel, cs[c])]
  {
    assert cs[..c + 1][..c] == cs[..c];
  }

  /** `for c in cands: out.append({...})`. */
  method AppendTagged(found: seq<Found>, ctx: string, sel: string, cs: seq<Candidate>) returns (out: seq<Found>)
    ensures out == found + Tag(ctx, sel, cs)
  {
    out := found;
    var c := 0;
    while c < |cs|
      invariant 0 <= c <= |cs|
      invariant out == found + Tag(ctx, sel, cs[..c])
    {
      TagSnoc(ctx, sel, cs, c);
      out := out + [Found(ctx, sel, cs[c])];
      c := c + 1;
    }
    assert cs[..c] == cs;
  }

  /** The body of `main`'s loop for one walked rule. */
  method BlockCandidates(w: Walked) returns (found: seq<Found>)
    ensures found == BlockFound(w)
  {
    var sel := Trim(w.prelude);
    var decls := DeclsOf(w.items);
    found := [];
    if sel == [] || decls == [] {
      return;
    }
    var b := 0;
    while b < |BASES|
      invariant 0 <= b <= |BASES|
      invariant found == Tag(w.ctx, sel, SideCands(decls, b))
    {
      var cs := FourSideCandidates(decls, BASES[b]);
      assert SideCands(decls, b + 1) == SideCands(decls, b) + cs;
      TagAppend(w.ctx, sel, SideCands(decls, b), cs);
      found := AppendTagged(found, w.ctx, sel, cs);
      b := b + 1;
    }
  }

  /** One turn of `main`'s loop: the candidates of rule `i` are added. */
  method AddBlock(ws: seq<Walked>, i: nat, candidates: seq<Found>) returns (next: seq<Found>)
    requires i < |ws| && candidates == AllFound(ws, i, BlockFound)
    ensures next == AllFound(ws, i + 1, BlockFound)
  {
    var here := BlockCandidates(ws[i]);
    next := candidates + here;
  }

  /** `main` without the file I/O. */
  method Run(stylesheet: seq<Rule>) returns (report: Report)
    ensures var ws := WalkRules(stylesheet, "");
      report == Report(|AllFound(ws, |ws|, BlockFound)|, AllFound(ws, |ws|, BlockFound))
  {
    var ws := WalkRules(stylesheet, "");
    var candidates: seq<Found> := [];
    var i := 0;
    while i < |ws|
      invariant 0 <= i <= |ws|
      invariant candidates == AllFound(ws, i, BlockFound)
    {
      candidates := AddBlock(ws, i, candidates);
      i := i + 1;
    }
    report := Report(|candidates|, candidates);
  }

  /** Only padding and margin are reported, at most one of each per rule,
      always for a non-empty selector. */
  lemma BlockFoundShape(w: Walked)
    ensures |BlockFound(w)| <= 2
    ensures forall k :: 0 <= k < |BlockFound(w)| ==>
      BlockFound(w)[k].candidate.property in BASES && BlockFound(w)[k].selector != [] && BlockFound(w)[k].ctx == w.ctx
  {
    var sel := Trim(w.prelude);
    var decls := DeclsOf(w.items);
    if sel != [] && decls != [] {
      var cs := SideCands(decls, |BASES|);
      var r := Tag(w.ctx, sel, cs);
      assert BlockFound(w) == r;
      forall k | 0 <= k < |r| ensures r[k].candidate.property in BASES && r[k].selector != [] && r[k].ctx == w.ctx {
        assert r[k] == Found(w.ctx, sel, cs[k]);
      }
    }
  }

  predicate FoundShape(fs: seq<Found>) {
    forall k :: 0 <= k < |fs| ==> fs[k].candidate.property in BASES && fs[k].selector != []
  }

  lemma {:induction false} AllFoundShape(ws: seq<Walked>, n: nat, f: Walked -> seq<Found>)
    requires n <= |ws|
    requires forall i :: 0 <= i < |ws| ==> FoundShape(f(ws[i]))
    ensures FoundShape(AllFound(ws, n, f))
  {
    if n > 0 {
      AllFoundShape(ws, n - 1, f);
      var a := AllFound(ws, n - 1, f);
      var b := f(ws[n - 1]);
      assert forall k :: |a| <= k < |a + b| ==> (a + b)[k] == b[k - |a|];
    }
  }

  /** Every candidate of the report is a padding or margin shorthand for a
      non-empty selector. */
  lemma ReportShape(ws: seq<Walked>)
    ensures FoundShape(AllFound(ws, |ws|, BlockFound))
  {
    forall i | 0 <= i < |ws| ensures FoundShape(BlockFound(ws[i])) {
      BlockFoundShape(ws[i]);
    }
    AllFoundShape(ws, |ws|, BlockFound);
  }
}
