/** The redundancy report: within each qualified rule, a declaration that
    repeats the value and importance of the previous declaration of the
    same property, a `border-top: none` under `border: none`, and a
    `background-color` overridden by a later `background`, both
    `!important`. */
module CssRedundancy {
  import opened Wrappers
  import opened Strings
  import opened OrderedDict
  import opened CssAst

  const SAMPLE_LIMIT: nat := 50

  datatype SameProp = SameProp(ctx: string, selector: string, property: string, value: string,
                               important: bool, line: nat, prevLine: nat)
  datatype BorderTop = BorderTop(ctx: string, selector: string, line: nat)
  datatype Longhand = Longhand(ctx: string, selector: string, line: nat, longhand: string, shorthand: string)

  /** What `seen` maps a property to. */
  function SeenOf(d: Decl): (string, bool, nat) {
    (d.value, d.important, d.line)
  }

  // ---------------------------------------------------------------------
  // Check 1: the same property repeated with the same value.

  /** The declaration before `i` of the same property, if any, has the same
      value and importance. */
  predicate RepeatsPrevious(decls: seq<Decl>, i: nat)
    requires i < |decls|
  {
    var j := LastIndex(decls[..i], decls[i].name);
    j >= 0 && decls[j].value == decls[i].value && decls[j].important == decls[i].important
  }

  function ReportAt(ctx: string, sel: string, decls: seq<Decl>, i: nat): SameProp
    requires i < |decls| && RepeatsPrevious(decls, i)
  {
    var d := decls[i];
    SameProp(ctx, sel, d.name, d.value, d.important, d.line, decls[LastIndex(decls[..i], d.name)].line)
  }

  /** The reports for the first `n` declarations, in order. */
  function SameProps(ctx: string, sel: string, decls: seq<Decl>, n: nat): (r: seq<SameProp>)
    requires n <= |decls|
    ensures |r| <= n
    ensures forall k :: 0 <= k < |r| ==> r[k].ctx == ctx && r[k].selector == sel
  {
    if n == 0 then []
    else SameProps(ctx, sel, decls, n - 1) + (if RepeatsPrevious(decls, n - 1) then [ReportAt(ctx, sel, decls, n - 1)] else [])
  }

  /** The first loop of a block: reports and the final `seen` dict. */
  method CheckSameProp(ctx: string, sel: string, decls: seq<Decl>) returns (reports: seq<SameProp>, seen: Dict<(string, bool, nat)>)
    ensures reports == SameProps(ctx, sel, decls, |decls|)
    ensures seen == LastBy(decls, SeenOf)
  {
    reports, seen := [], [];
    var i := 0;
    while i < |decls|
      invariant 0 <= i <= |decls|
      invariant seen == LastBy(decls[..i], SeenOf)
      invariant reports == SameProps(ctx, sel, decls, i)
    {
      reports, seen := SamePropStep(ctx, sel, decls, i, reports, seen);
      i := i + 1;
    }
    assert decls[..i] == decls;
  }

  /** One iteration of that loop. */
  method SamePropStep(ctx: string, sel: string, decls: seq<Decl>, i: nat,
                      reports0: seq<SameProp>, seen0: Dict<(string, bool, nat)>)
    returns (reports: seq<SameProp>, seen: Dict<(string, bool, nat)>)
    requires i < |decls| && seen0 == LastBy(decls[..i], SeenOf) && reports0 == SameProps(ctx, sel, decls, i)
    ensures seen == LastBy(decls[..i + 1], SeenOf) && reports == SameProps(ctx, sel, decls, i + 1)
  {
    var d := decls[i];
    reports, seen := reports0, seen0;
    SeenStep(decls, i, seen);
    if d.name in Keys(seen) && Get(seen, d.name).0 == d.value && Get(seen, d.name).1 == d.important {
      reports := reports + [SameProp(ctx, sel, d.name, d.value, d.important, d.line, Get(seen, d.name).2)];
    }
    LastBySnoc(decls, SeenOf, i);
    seen := Put(seen, d.name, SeenOf(d));
  }

  /** What the loop reads from `seen` is what `RepeatsPrevious` and
      `ReportAt` read from the declarations before `i`. */
  lemma SeenStep(decls: seq<Decl>, i: nat, seen: Dict<(string, bool, nat)>)
    requires i < |decls| && seen == LastBy(decls[..i], SeenOf)
    ensures var d := decls[i];
      (d.name in Keys(seen) && Get(seen, d.name).0 == d.value && Get(seen, d.name).1 == d.important) <==> RepeatsPrevious(decls, i)
    ensures RepeatsPrevious(decls, i) ==> ReportAt("", "", decls, i).prevLine == Get(seen, decls[i].name).2
  {
    var d := decls[i];
    LastBySpec(decls[..i], SeenOf, d.name);
    var j := LastIndex(decls[..i], d.name);
    if j >= 0 {
      assert decls[..i][j] == decls[j];
    }
  }

  /** A report is made exactly for each declaration that repeats the
      previous one of its property. */
  lemma {:induction false} SamePropsFrom(ctx: string, sel: string, decls: seq<Decl>, n: nat, k: nat)
    requires n <= |decls| && k < |SameProps(ctx, sel, decls, n)|
    ensures exists i :: 0 <= i < n && RepeatsPrevious(decls, i) && SameProps(ctx, sel, decls, n)[k] == ReportAt(ctx, sel, decls, i)
  {
    var prev := SameProps(ctx, sel, decls, n - 1);
    if k < |prev| {
      SamePropsFrom(ctx, sel, decls, n - 1, k);
    } else {
      assert SameProps(ctx, sel, decls, n)[k] == ReportAt(ctx, sel, decls, n - 1);
    }
  }

  lemma {:induction false} SamePropsTo(ctx: string, sel: string, decls: seq<Decl>, n: nat, i: nat)
    requires i < n <= |decls| && RepeatsPrevious(decls, i)
    ensures ReportAt(ctx, sel, decls, i) in SameProps(ctx, sel, decls, n)
  {
    if i < n - 1 {
      SamePropsTo(ctx, sel, decls, n - 1, i);
    }
  }

  lemma SamePropsIff(ctx: string, sel: string, decls: seq<Decl>, r: SameProp)
    ensures r in SameProps(ctx, sel, decls, |decls|) <==>
      exists i :: 0 <= i < |decls| && RepeatsPrevious(decls, i) && r == ReportAt(ctx, sel, decls, i)
  {
    var all := SameProps(ctx, sel, decls, |decls|);
    if r in all {
      var k :| 0 <= k < |all| && all[k] == r;
      SamePropsFrom(ctx, sel, decls, |decls|, k);
    }
    if exists i :: 0 <= i < |decls| && RepeatsPrevious(decls, i) && r == ReportAt(ctx, sel, decls, i) {
      var i :| 0 <= i < |decls| && RepeatsPrevious(decls, i) && r == ReportAt(ctx, sel, decls, i);
      SamePropsTo(ctx, sel, decls, |decls|, i);
    }
  }

  /** The first declaration of a property is never reported, so a block
      whose properties are all distinct has no reports. */
  lemma {:induction false} DistinctPropertiesNoReports(ctx: string, sel: string, decls: seq<Decl>, n: nat)
    requires n <= |decls|
    requires forall i, j :: 0 <= i < j < |decls| ==> decls[i].name != decls[j].name
    ensures SameProps(ctx, sel, decls, n) == []
  {
    if n > 0 {
      DistinctPropertiesNoReports(ctx, sel, decls, n - 1);
      var i := n - 1;
      assert LastIndex(decls[..i], decls[i].name) == -1 by {
        forall k | 0 <= k < i ensures decls[..i][k].name != decls[i].name {
          assert decls[..i][k] == decls[k];
        }
      }
    }
  }

  // ---------------------------------------------------------------------
  // Check 2: `border-top: none` under `border: none`.

  /** Reported once, with the line of the last `border-top`, when the last
      `border` and the last `border-top` are both "none" with the same
      importance. */
  predicate BorderTopRedundant(decls: seq<Decl>, b: int, bt: int) {
    IsLast(decls, b, "border") && IsLast(decls, bt, "border-top") &&
    Trim(decls[b].value) == "none" && Trim(decls[bt].value) == "none" &&
    decls[b].important == decls[bt].important
  }

  /** The check as the report lists it. */
  function BorderTopReports(ctx: string, sel: string, decls: seq<Decl>): (r: seq<BorderTop>)
    ensures |r| <= 1
    ensures forall k :: 0 <= k < |r| ==> r[k].ctx == ctx && r[k].selector == sel
  {
    var b := LastIndex(decls, "border");
    var bt := LastIndex(decls, "border-top");
    if b >= 0 && bt >= 0 && Trim(decls[b].value) == "none" && Trim(decls[bt].value) == "none" &&
       decls[b].important == decls[bt].important
    then [BorderTop(ctx, sel, decls[bt].line)]
    else []
  }

  /** At most one report per block, made exactly when the condition holds,
      and carrying the line of the last `border-top`. */
  lemma BorderTopIff(ctx: string, sel: string, decls: seq<Decl>)
    ensures |BorderTopReports(ctx, sel, decls)| == 1 <==> exists b, bt :: BorderTopRedundant(decls, b, bt)
    ensures forall b, bt :: BorderTopRedundant(decls, b, bt) ==>
      BorderTopReports(ctx, sel, decls) == [BorderTop(ctx, sel, decls[bt].line)]
  {
    var b := LastIndex(decls, "border");
    var bt := LastIndex(decls, "border-top");
    if |BorderTopReports(ctx, sel, decls)| == 1 {
      assert BorderTopRedundant(decls, b, bt);
    }
    forall b', bt' | BorderTopRedundant(decls, b', bt')
      ensures BorderTopReports(ctx, sel, decls) == [BorderTop(ctx, sel, decls[bt'].line)]
    {
      LastIndexOfIsLast(decls, b', "border");
      LastIndexOfIsLast(decls, bt', "border-top");
    }
  }

  /** The second check, read off the `seen` dict the first loop left. */
  method CheckBorderTop(ctx: string, sel: string, decls: seq<Decl>, seen: Dict<(string, bool, nat)>) returns (r: seq<BorderTop>)
    requires seen == LastBy(decls, SeenOf)
    ensures r == BorderTopReports(ctx, sel, decls)
  {
    LastBySpec(decls, SeenOf, "border");
    LastBySpec(decls, SeenOf, "border-top");
    r := [];
    if "border" in Keys(seen) && "border-top" in Keys(seen) {
      var (bVal, bImp, _) := Get(seen, "border");
      var (btVal, btImp, btLine) := Get(seen, "border-top");
      if Trim(bVal) == "none" && Trim(btVal) == "none" && bImp == btImp {
        r := [BorderTop(ctx, sel, btLine)];
      }
    }
  }

  // ---------------------------------------------------------------------
  // Check 3: `background-color` under a later `background`.

  predicate LonghandRedundant(decls: seq<Decl>, bg: int, bgc: int) {
    IsLast(decls, bg, "background") && IsLast(decls, bgc, "background-color") &&
    bg > bgc && decls[bg].important && decls[bgc].important
  }

  /** The third check: `max(...)` over the property names for both. */
  function LonghandReports(ctx: string, sel: string, decls: seq<Decl>): (r: seq<Longhand>)
    ensures |r| <= 1
    ensures forall k :: 0 <= k < |r| ==> r[k].ctx == ctx && r[k].selector == sel
  {
    var lastBg := LastIndex(decls, "background");
    var lastBgc := LastIndex(decls, "background-color");
    if lastBg >= 0 && lastBgc >= 0 && lastBg > lastBgc && decls[lastBg].important && decls[lastBgc].important
    then [Longhand(ctx, sel, decls[lastBgc].line, "background-color", "background")]
    else []
  }

  /** Reported once, with the line of the last `background-color`, exactly
      when the last `background` comes after it and both are `!important`. */
  lemma LonghandIff(ctx: string, sel: string, decls: seq<Decl>)
    ensures |LonghandReports(ctx, sel, decls)| == 1 <==> exists bg, bgc :: LonghandRedundant(decls, bg, bgc)
    ensures forall bg, bgc :: LonghandRedundant(decls, bg, bgc) ==>
      LonghandReports(ctx, sel, decls) == [Longhand(ctx, sel, decls[bgc].line, "background-color", "background")]
  {
    var bg := LastIndex(decls, "background");
    var bgc := LastIndex(decls, "background-color");
    if |LonghandReports(ctx, sel, decls)| == 1 {
      assert LonghandRedundant(decls, bg, bgc);
    }
    forall bg', bgc' | LonghandRedundant(decls, bg', bgc')
      ensures LonghandReports(ctx, sel, decls) == [Longhand(ctx, sel, decls[bgc'].line, "background-color", "background")]
    {
      LastIndexOfIsLast(decls, bg', "background");
      LastIndexOfIsLast(decls, bgc', "background-color");
    }
  }

  // ---------------------------------------------------------------------
  // The report over the whole stylesheet.

  datatype Reports = Reports(same: seq<SameProp>, borderTop: seq<BorderTop>, longhand: seq<Longhand>)

  /** What one walked rule adds: nothing for an empty selector or a rule
      without declarations. */
  function BlockReports(w: Walked): Reports {
    var sel := Trim(w.prelude);
    var decls := DeclsOf(w.items);
    if sel == [] || decls == [] then Reports([], [], [])
    else
      Reports(SameProps(w.ctx, sel, decls, |decls|), BorderTopReports(w.ctx, sel, decls), LonghandReports(w.ctx, sel, decls))
  }

  /** The three lists after the first `n` walked rules, when `f` gives
      what one rule adds. */
  function Gather(ws: seq<Walked>, n: nat, f: Walked -> Reports): Reports
    requires n <= |ws|
  {
    if n == 0 then Reports([], [], [])
    else Concat(Gather(ws, n - 1, f), f(ws[n - 1]))
  }

  /** The three lists of the whole report. */
  function AllReports(ws: seq<Walked>): Reports {
    Gather(ws, |ws|, BlockReports)
  }

  function Concat(a: Reports, b: Reports): Reports {
    Reports(a.same + b.same, a.borderTop + b.borderTop, a.longhand + b.longhand)
  }

  /** The report written to disk: the three counts and the first 50
      entries of each list. */
  datatype Report = Report(sameCount: nat, borderTopCount: nat, longhandCount: nat,
                           sameSamples: seq<SameProp>, borderTopSamples: seq<BorderTop>, longhandSamples: seq<Longhand>)

  method BlockChecks(w: Walked) returns (r: Reports)
    ensures r == BlockReports(w)
  {
    var sel := Trim(w.prelude);
    var decls := DeclsOf(w.items);
    if sel == [] || decls == [] {
      return Reports([], [], []);
    }
    var same, seen := CheckSameProp(w.ctx, sel, decls);
    var border := CheckBorderTop(w.ctx, sel, decls, seen);
    r := Reports(same, border, LonghandReports(w.ctx, sel, decls));
  }

  /** `main` without the file I/O. */
  method Run(stylesheet: seq<Rule>) returns (report: Report)
    ensures var all := AllReports(WalkRules(stylesheet, ""));
      report == Report(|all.same|, |all.borderTop|, |all.longhand|,
                       Take(all.same, SAMPLE_LIMIT), Take(all.borderTop, SAMPLE_LIMIT), Take(all.longhand, SAMPLE_LIMIT))
  {
    var ws := WalkRules(stylesheet, "");
    var same, border, longhand := CheckAll(ws);
    report := Report(|same|, |border|, |longhand|, Take(same, SAMPLE_LIMIT), Take(border, SAMPLE_LIMIT), Take(longhand, SAMPLE_LIMIT));
  }

  /** The loop over the walked rules, extending the three lists. */
  method CheckAll(ws: seq<Walked>) returns (same: seq<SameProp>, border: seq<BorderTop>, longhand: seq<Longhand>)
    ensures Reports(same, border, longhand) == AllReports(ws)
  {
    same, border, longhand := [], [], [];
    var i := 0;
    while i < |ws|
      invariant 0 <= i <= |ws|
      invariant Reports(same, border, longhand) == Gather(ws, i, BlockReports)
    {
      same, border, longhand := CheckOne(ws, i, same, border, longhand);
      i := i + 1;
    }
  }

  /** One iteration: the checks of rule `i` appended to the three lists. */
  method CheckOne(ws: seq<Walked>, i: nat, same0: seq<SameProp>, border0: seq<BorderTop>, longhand0: seq<Longhand>)
    returns (same: seq<SameProp>, border: seq<BorderTop>, longhand: seq<Longhand>)
    requires i < |ws| && Reports(same0, border0, longhand0) == Gather(ws, i, BlockReports)
    ensures Reports(same, border, longhand) == Gather(ws, i + 1, BlockReports)
  {
    var here := BlockChecks(ws[i]);
    same, border, longhand := same0 + here.same, border0 + here.borderTop, longhand0 + here.longhand;
  }

  /** Each count is the full list's length; each sample is the start of
      the list and at most 50 long. */
  lemma ReportBounds(all: Reports)
    ensures var report := Report(|all.same|, |all.borderTop|, |all.longhand|,
        Take(all.same, SAMPLE_LIMIT), Take(all.borderTop, SAMPLE_LIMIT), Take(all.longhand, SAMPLE_LIMIT));
      |report.sameSamples| <= SAMPLE_LIMIT && |report.borderTopSamples| <= SAMPLE_LIMIT && |report.longhandSamples| <= SAMPLE_LIMIT &&
      report.sameSamples == all.same[..|report.sameSamples|] &&
      (report.sameCount <= SAMPLE_LIMIT ==> report.sameSamples == all.same)
  {
  }

  /** Every report names a non-empty selector and a stripped context. */
  predicate WellNamed(all: Reports) {
    (forall k :: 0 <= k < |all.same| ==> all.same[k].selector != [] && NoSpaceAtEnds(all.same[k].ctx)) &&
    (forall k :: 0 <= k < |all.borderTop| ==> all.borderTop[k].selector != [] && NoSpaceAtEnds(all.borderTop[k].ctx)) &&
    (forall k :: 0 <= k < |all.longhand| ==> all.longhand[k].selector != [] && NoSpaceAtEnds(all.longhand[k].ctx))
  }

  /** The reports of one rule name its selector, which is not empty, and
      its context. */
  lemma BlockReportsShape(w: Walked)
    requires NoSpaceAtEnds(w.ctx)
    ensures WellNamed(BlockReports(w))
  {
    var sel := Trim(w.prelude);
    var decls := DeclsOf(w.items);
    if sel != [] && decls != [] {
      var here := Reports(SameProps(w.ctx, sel, decls, |decls|), BorderTopReports(w.ctx, sel, decls), LonghandReports(w.ctx, sel, decls));
      assert BlockReports(w) == here;
      ShapeWellNamed(here, w.ctx, sel);
    }
  }

  lemma ShapeWellNamed(here: Reports, ctx: string, sel: string)
    requires sel != [] && NoSpaceAtEnds(ctx)
    requires forall k :: 0 <= k < |here.same| ==> here.same[k].ctx == ctx && here.same[k].selector == sel
    requires forall k :: 0 <= k < |here.borderTop| ==> here.borderTop[k].ctx == ctx && here.borderTop[k].selector == sel
    requires forall k :: 0 <= k < |here.longhand| ==> here.longhand[k].ctx == ctx && here.longhand[k].selector == sel
    ensures WellNamed(here)
  {
  }

  lemma ReportsHaveSelectors(ws: seq<Walked>)
    requires forall i :: 0 <= i < |ws| ==> NoSpaceAtEnds(ws[i].ctx)
    ensures WellNamed(AllReports(ws))
  {
    forall i | 0 <= i < |ws| ensures WellNamed(BlockReports(ws[i])) {
      BlockReportsShape(ws[i]);
    }
    GatherWellNamed(ws, |ws|, BlockReports);
  }

  lemma {:induction false} GatherWellNamed(ws: seq<Walked>, n: nat, f: Walked -> Reports)
    requires n <= |ws|
    requires forall i :: 0 <= i < |ws| ==> WellNamed(f(ws[i]))
    ensures WellNamed(Gather(ws, n, f))
  {
    if n > 0 {
      GatherWellNamed(ws, n - 1, f);
      ConcatWellNamed(Gather(ws, n - 1, f), f(ws[n - 1]));
    }
  }

  lemma ConcatWellNamed(a: Reports, b: Reports)
    requires WellNamed(a) && WellNamed(b)
    ensures WellNamed(Concat(a, b))
  {
    var c := Concat(a, b);
    assert forall k :: |a.same| <= k < |c.same| ==> c.same[k] == b.same[k - |a.same|];
    assert forall k :: |a.borderTop| <= k < |c.borderTop| ==> c.borderTop[k] == b.borderTop[k - |a.borderTop|];
    assert forall k :: |a.longhand| <= k < |c.longhand| ==> c.longhand[k] == b.longhand[k - |a.longhand|];
  }
}
