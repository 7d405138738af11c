/** The audit report: the rule inventory, the rules whose selectors match
    nothing in a DOM snapshot once interactive pseudo-classes are removed,
    and the selectors that occur in several blocks of one at-rule context,
    with the declarations whose value changes from block to block. */
module CssAudit {
  import opened Wrappers
  import opened Strings
  import opened OrderedDict
  import opened Sorting
  import opened Lists
  import opened CssAst
  import opened CssSelectors

  /** How many multi-block entries the report lists. */
  const MULTI_BLOCK_LIMIT: nat := 400

  /** An entry of the rule inventory. */
  datatype RuleRef = RuleRef(ctx: string, selector: string, prelude: string, line: nat, decls: seq<Decl>)

  // ---------------------------------------------------------------------
  // The inventory.

  /** The grouping selector of a walked rule. */
  function SelectorOf(w: Walked): string {
    NormalizeSelectorText(Trim(w.prelude))
  }

  predicate HasSelector(w: Walked) {
    SelectorOf(w) != []
  }

  function RefOf(w: Walked): RuleRef {
    RuleRef(Trim(w.ctx), SelectorOf(w), w.prelude, w.line, DeclsOf(w.items))
  }

  /** The inventory: one entry per walked rule whose normalised selector
      is not empty, in source order. */
  function Inventory(ws: seq<Walked>): seq<RuleRef> {
    FilterMap(ws, |ws|, HasSelector, RefOf)
  }

  /** Every inventory entry comes from a walked rule, and its selector is
      non-empty and normalised: stripped, single-spaced. */
  lemma InventorySpec(ws: seq<Walked>, r: RuleRef)
    ensures r in Inventory(ws) <==> exists i :: 0 <= i < |ws| && HasSelector(ws[i]) && r == RefOf(ws[i])
    ensures r in Inventory(ws) ==> r.selector != [] && NoSpaceAtEnds(r.selector) && SingleSpaced(r.selector)
  {
    FilterMapIff(ws, |ws|, HasSelector, RefOf, r);
    if r in Inventory(ws) {
      var i :| 0 <= i < |ws| && HasSelector(ws[i]) && r == RefOf(ws[i]);
      NormalizeSelectorTextSpec(Trim(ws[i].prelude));
    }
  }

  /** The inventory loop of `main`. */
  method BuildInventory(ws: seq<Walked>) returns (rules: seq<RuleRef>)
    ensures rules == Inventory(ws)
  {
    rules := [];
    var i := 0;
    while i < |ws|
      invariant 0 <= i <= |ws|
      invariant rules == FilterMap(ws, i, HasSelector, RefOf)
    {
      rules := AddInventory(ws, i, rules);
      i := i + 1;
    }
  }

  /** One iteration of that loop. */
  method AddInventory(ws: seq<Walked>, i: nat, rules: seq<RuleRef>) returns (next: seq<RuleRef>)
    requires i < |ws| && rules == FilterMap(ws, i, HasSelector, RefOf)
    ensures next == FilterMap(ws, i + 1, HasSelector, RefOf)
  {
    var here := InventoryStep(ws[i]);
    next := rules + here;
  }

  /** The body of that loop: the entry of one walked rule, if it has a
      selector. */
  method InventoryStep(w: Walked) returns (here: seq<RuleRef>)
    ensures here == if HasSelector(w) then [RefOf(w)] else []
  {
    here := [];
    var sel := NormalizeSelectorText(Trim(w.prelude));
    if sel != [] {
      here := [RuleRef(Trim(w.ctx), sel, w.prelude, w.line, DeclsOf(w.items))];
    }
  }

  // ---------------------------------------------------------------------
  // DOM hits. Parsing a prelude into selectors and matching a selector
  // against the DOM snapshot are given as functions: `parse` yields None
  // when the selector parser fails, `hasHit` says whether some element
  // matches.

  /** A rule is used when one of its selectors, stripped of interactive
      pseudo-classes, matches; a prelude that does not parse is unused. */
  predicate AnyHit(parsed: Option<seq<Selector>>, hasHit: Selector -> bool) {
    parsed.Some? && exists i :: 0 <= i < |parsed.value| && hasHit(Strip(parsed.value[i]))
  }

  /** `_rule_selectors_dom_hits`: whether some selector hits, and whether
      the prelude failed to parse. */
  method RuleDomHits(parsed: Option<seq<Selector>>, hasHit: Selector -> bool) returns (anyHit: bool, parseError: bool)
    ensures anyHit == AnyHit(parsed, hasHit)
    ensures parseError <==> parsed.None?
  {
    if parsed.None? {
      return false, true;
    }
    var sels := parsed.value;
    anyHit, parseError := false, false;
    var i := 0;
    while i < |sels|
      invariant 0 <= i <= |sels|
      invariant anyHit <==> exists k :: 0 <= k < i && hasHit(Strip(sels[k]))
    {
      if hasHit(Strip(sels[i])) {
        anyHit := true;
      }
      i := i + 1;
    }
  }

  /** A rule that only differs from a matching one by an interactive
      pseudo-class counts as used: `a:hover` and `a:not(:hover)` are used
      as soon as `a` matches. */
  lemma StatefulSelectorUsed(a: Simple, name: string, hasHit: Selector -> bool)
    requires a.OtherSimple? && name in INTERACTIVE_PSEUDO_CLASSES && hasHit(Compound([a]))
    ensures AnyHit(Some([Compound([a, PseudoClass(name)])]), hasHit)
    ensures AnyHit(Some([Compound([a, Negation([Compound([PseudoClass(name)])])])]), hasHit)
  {
    NotInteractiveDropped(a, name);
    var s1 := [Compound([a, PseudoClass(name)])];
    assert hasHit(Strip(s1[0]));
    var s2 := [Compound([a, Negation([Compound([PseudoClass(name)])])])];
    assert hasHit(Strip(s2[0]));
  }

  /** An entry of `unused_candidates` or of `dom_parse_errors`. */
  datatype RuleNote = RuleNote(ctx: string, selector: string, line: nat)

  function NoteOf(r: RuleRef): RuleNote {
    RuleNote(r.ctx, r.selector, r.line)
  }

  /** The rules among the first `n` reported unused: those with no hit. */
  function Unused(rules: seq<RuleRef>, n: nat, parse: string -> Option<seq<Selector>>, hasHit: Selector -> bool): (u: seq<RuleNote>)
    requires n <= |rules|
    ensures |u| <= n
  {
    if n == 0 then []
    else
      var r := rules[n - 1];
      Unused(rules, n - 1, parse, hasHit) + (if !AnyHit(parse(r.prelude), hasHit) then [NoteOf(r)] else [])
  }

  /** The rules among the first `n` whose prelude does not parse. */
  function ParseErrors(rules: seq<RuleRef>, n: nat, parse: string -> Option<seq<Selector>>): (e: seq<RuleNote>)
    requires n <= |rules|
    ensures |e| <= n
  {
    if n == 0 then []
    else
      var r := rules[n - 1];
      ParseErrors(rules, n - 1, parse) + (if parse(r.prelude).None? then [NoteOf(r)] else [])
  }

  /** A rule is reported unused iff none of its selectors hits; a rule
      whose prelude does not parse is always among them. */
  lemma {:induction false} UnusedIff(rules: seq<RuleRef>, n: nat, parse: string -> Option<seq<Selector>>, hasHit: Selector -> bool, note: RuleNote)
    requires n <= |rules|
    ensures note in Unused(rules, n, parse, hasHit) <==>
      exists i :: 0 <= i < n && !AnyHit(parse(rules[i].prelude), hasHit) && note == NoteOf(rules[i])
    ensures note in ParseErrors(rules, n, parse) ==> note in Unused(rules, n, parse, hasHit)
  {
    if n > 0 {
      UnusedIff(rules, n - 1, parse, hasHit, note);
      var r := rules[n - 1];
      if !AnyHit(parse(r.prelude), hasHit) && note == NoteOf(r) {
        assert note in Unused(rules, n, parse, hasHit);
      }
    }
  }

  /** A rule's prelude is reported iff it does not parse. */
  lemma {:induction false} ParseErrorsIff(rules: seq<RuleRef>, n: nat, parse: string -> Option<seq<Selector>>, note: RuleNote)
    requires n <= |rules|
    ensures note in ParseErrors(rules, n, parse) <==>
      exists i :: 0 <= i < n && parse(rules[i].prelude).None? && note == NoteOf(rules[i])
  {
    if n > 0 {
      ParseErrorsIff(rules, n - 1, parse, note);
      var r := rules[n - 1];
      if parse(r.prelude).None? && note == NoteOf(r) {
        assert note in ParseErrors(rules, n, parse);
      }
    }
  }

  /** The DOM loop of `main`. */
  method DomReport(rules: seq<RuleRef>, parse: string -> Option<seq<Selector>>, hasHit: Selector -> bool)
    returns (unused: seq<RuleNote>, errors: seq<RuleNote>)
    ensures unused == Unused(rules, |rules|, parse, hasHit)
    ensures errors == ParseErrors(rules, |rules|, parse)
  {
    unused, errors := [], [];
    var i := 0;
    while i < |rules|
      invariant 0 <= i <= |rules|
      invariant unused == Unused(rules, i, parse, hasHit)
      invariant errors == ParseErrors(rules, i, parse)
    {
      var r := rules[i];
      var anyHit, parseError := RuleDomHits(parse(r.prelude), hasHit);
      if parseError {
        errors := errors + [RuleNote(r.ctx, r.selector, r.line)];
      }
      if !anyHit {
        unused := unused + [RuleNote(r.ctx, r.selector, r.line)];
      }
      i := i + 1;
    }
  }

  // ---------------------------------------------------------------------
  // Grouping by (at-rule context, selector).

  /** An entry of `by_selector`. */
  datatype Group = Group(ctx: string, selector: string, members: seq<RuleRef>)

  predicate SameKey(r: RuleRef, ctx: string, sel: string) {
    r.ctx == ctx && r.selector == sel
  }

  /** The rules with the given key, in order. */
  function Members(rules: seq<RuleRef>, ctx: string, sel: string): (m: seq<RuleRef>)
    ensures forall k :: 0 <= k < |m| ==> SameKey(m[k], ctx, sel)
    decreases |rules|
  {
    if rules == [] then []
    else
      var r := rules[|rules| - 1];
      Members(rules[..|rules| - 1], ctx, sel) + (if SameKey(r, ctx, sel) then [r] else [])
  }

  lemma MembersSnoc(rules: seq<RuleRef>, r: RuleRef, ctx: string, sel: string)
    ensures Members(rules + [r], ctx, sel) == Members(rules, ctx, sel) + (if SameKey(r, ctx, sel) then [r] else [])
  {
    assert (rules + [r])[..|rules|] == rules;
  }

  lemma {:induction false} MembersEmpty(rules: seq<RuleRef>, ctx: string, sel: string)
    requires forall i :: 0 <= i < |rules| ==> !SameKey(rules[i], ctx, sel)
    ensures Members(rules, ctx, sel) == []
    decreases |rules|
  {
    if rules != [] {
      MembersEmpty(rules[..|rules| - 1], ctx, sel);
    }
  }

  /** The index of the group with the given key, -1 if there is none. */
  function FindGroup(gs: seq<Group>, ctx: string, sel: string): (k: int)
    ensures -1 <= k < |gs|
    ensures k >= 0 ==> gs[k].ctx == ctx && gs[k].selector == sel
    ensures k == -1 ==> forall j :: 0 <= j < |gs| ==> !(gs[j].ctx == ctx && gs[j].selector == sel)
    decreases |gs|
  {
    if gs == [] then -1
    else if gs[|gs| - 1].ctx == ctx && gs[|gs| - 1].selector == sel then |gs| - 1
    else FindGroup(gs[..|gs| - 1], ctx, sel)
  }

  /** `by_selector.setdefault(key, []).append(r)`. */
  function AddRule(gs: seq<Group>, r: RuleRef): seq<Group> {
    var k := FindGroup(gs, r.ctx, r.selector);
    if k >= 0 then gs[k := gs[k].(members := gs[k].members + [r])]
    else gs + [Group(r.ctx, r.selector, [r])]
  }

  /** `by_selector` after the given rules. */
  function Groups(rules: seq<RuleRef>): seq<Group>
    decreases |rules|
  {
    if rules == [] then [] else AddRule(Groups(rules[..|rules| - 1]), rules[|rules| - 1])
  }

  predicate DistinctKeys(gs: seq<Group>) {
    forall a, b :: 0 <= a < b < |gs| ==> !(gs[a].ctx == gs[b].ctx && gs[a].selector == gs[b].selector)
  }

  /** Each group holds, in order, exactly the rules with its key. */
  predicate ExactMembers(rules: seq<RuleRef>, gs: seq<Group>) {
    forall k :: 0 <= k < |gs| ==> gs[k].members == Members(rules, gs[k].ctx, gs[k].selector) && gs[k].members != []
  }

  /** Each rule has the group of its key. */
  predicate Covers(rules: seq<RuleRef>, gs: seq<Group>) {
    forall i :: 0 <= i < |rules| ==> FindGroup(gs, rules[i].ctx, rules[i].selector) >= 0
  }

  predicate Grouped(rules: seq<RuleRef>, gs: seq<Group>) {
    DistinctKeys(gs) && ExactMembers(rules, gs) && Covers(rules, gs)
  }

  /** Adding a rule keeps the keys of the groups there were, in their
      order, and leaves a group for the rule's key. */
  lemma AddRuleKeys(gs: seq<Group>, r: RuleRef)
    ensures |AddRule(gs, r)| >= |gs|
    ensures forall j :: 0 <= j < |gs| ==> AddRule(gs, r)[j].ctx == gs[j].ctx && AddRule(gs, r)[j].selector == gs[j].selector
    ensures FindGroup(AddRule(gs, r), r.ctx, r.selector) >= 0
  {
    var gs' := AddRule(gs, r);
    var k := FindGroup(gs, r.ctx, r.selector);
    var m := if k >= 0 then k else |gs|;
    assert gs'[m].ctx == r.ctx && gs'[m].selector == r.selector;
  }

  /** A key with a group keeps one. */
  lemma FindGroupKept(gs: seq<Group>, gs': seq<Group>, j: nat)
    requires j < |gs| <= |gs'|
    requires gs'[j].ctx == gs[j].ctx && gs'[j].selector == gs[j].selector
    ensures FindGroup(gs', gs[j].ctx, gs[j].selector) >= 0
  {
  }

  lemma AddRuleDistinct(gs: seq<Group>, r: RuleRef)
    requires DistinctKeys(gs)
    ensures DistinctKeys(AddRule(gs, r))
  {
    AddRuleKeys(gs, r);
  }

  lemma AddRuleCovers(rules: seq<RuleRef>, r: RuleRef, gs: seq<Group>)
    requires Covers(rules, gs)
    ensures Covers(rules + [r], AddRule(gs, r))
  {
    var gs' := AddRule(gs, r);
    var rules' := rules + [r];
    AddRuleKeys(gs, r);
    forall i | 0 <= i < |rules'| ensures FindGroup(gs', rules'[i].ctx, rules'[i].selector) >= 0 {
      if i < |rules| {
        var j := FindGroup(gs, rules[i].ctx, rules[i].selector);
        FindGroupKept(gs, gs', j);
      }
    }
  }

  /** A key with no group has no rules yet. */
  lemma NoGroupNoMembers(rules: seq<RuleRef>, gs: seq<Group>, ctx: string, sel: string)
    requires Covers(rules, gs) && FindGroup(gs, ctx, sel) < 0
    ensures Members(rules, ctx, sel) == []
  {
    forall i | 0 <= i < |rules| ensures !SameKey(rules[i], ctx, sel) {
      var j := FindGroup(gs, rules[i].ctx, rules[i].selector);
    }
    MembersEmpty(rules, ctx, sel);
  }

  lemma AddRuleMembers(rules: seq<RuleRef>, r: RuleRef, gs: seq<Group>)
    requires Grouped(rules, gs)
    ensures ExactMembers(rules + [r], AddRule(gs, r))
  {
    var k := FindGroup(gs, r.ctx, r.selector);
    var gs' := AddRule(gs, r);
    forall j | 0 <= j < |gs'|
      ensures gs'[j].members == Members(rules + [r], gs'[j].ctx, gs'[j].selector) && gs'[j].members != []
    {
      MembersSnoc(rules, r, gs'[j].ctx, gs'[j].selector);
      if j < |gs| && j != k {
        assert gs'[j] == gs[j];
        if k >= 0 {
          assert !(gs[j].ctx == gs[k].ctx && gs[j].selector == gs[k].selector);
        }
      } else if k < 0 {
        NoGroupNoMembers(rules, gs, r.ctx, r.selector);
      }
    }
  }

  lemma AddRuleGrouped(rules: seq<RuleRef>, r: RuleRef, gs: seq<Group>)
    requires Grouped(rules, gs)
    ensures Grouped(rules + [r], AddRule(gs, r))
  {
    AddRuleDistinct(gs, r);
    AddRuleCovers(rules, r, gs);
    AddRuleMembers(rules, r, gs);
  }

  /** `by_selector` has one group per key, in the order the keys first
      occur, holding exactly the rules with that key in source order. */
  lemma {:induction false} GroupsGrouped(rules: seq<RuleRef>)
    ensures Grouped(rules, Groups(rules))
    decreases |rules|
  {
    if rules != [] {
      var init, last := rules[..|rules| - 1], rules[|rules| - 1];
      assert init + [last] == rules;
      GroupsGrouped(init);
      AddRuleGrouped(init, last, Groups(init));
      assert Groups(rules) == AddRule(Groups(init), last);
    }
  }

  /** The grouping loop of `main`. */
  method GroupRules(rules: seq<RuleRef>) returns (gs: seq<Group>)
    ensures gs == Groups(rules)
  {
    gs := [];
    var i := 0;
    while i < |rules|
      invariant 0 <= i <= |rules|
      invariant gs == Groups(rules[..i])
    {
      assert rules[..i + 1][..i] == rules[..i];
      gs := AddRule(gs, rules[i]);
      i := i + 1;
    }
    assert rules[..i] == rules;
  }

  // ---------------------------------------------------------------------
  // Conflicts between the blocks of one group.

  function LineLe(a: RuleRef, b: RuleRef): bool {
    a.line <= b.line
  }

  lemma LineLeTotal()
    ensures TotalPreorder(LineLe)
  {
  }

  /** The declarations of a rule, each carrying the rule's line. */
  function AtLine(ds: seq<Decl>, line: nat): (r: seq<Decl>)
    ensures |r| == |ds|
    ensures forall k :: 0 <= k < |ds| ==> r[k] == Decl(ds[k].name, ds[k].value, ds[k].important, line)
  {
    seq(|ds|, k requires 0 <= k < |ds| => Decl(ds[k].name, ds[k].value, ds[k].important, line))
  }

  /** The declarations of the blocks one after another. */
  function Flatten(rs: seq<RuleRef>): seq<Decl>
    decreases |rs|
  {
    if rs == [] then [] else Flatten(rs[..|rs| - 1]) + AtLine(rs[|rs| - 1].decls, rs[|rs| - 1].line)
  }

  /** One entry of a multi-block's `conflicts`. */
  datatype Conflict = Conflict(property: string, prevValue: string, prevImportant: bool,
                               nextValue: string, nextImportant: bool, line: nat)

  function ValOf(d: Decl): (string, bool) {
    (d.value, d.important)
  }

  /** What declaration `d` adds after `prefix`: a conflict when the last
      earlier declaration of its property had another value or
      importance. */
  function ConflictAt(prefix: seq<Decl>, d: Decl): seq<Conflict> {
    var j := LastIndex(prefix, d.name);
    if j >= 0 && ValOf(prefix[j]) != ValOf(d) then
      [Conflict(d.name, prefix[j].value, prefix[j].important, d.value, d.important, d.line)]
    else []
  }

  /** The conflicts each declaration adds after the ones before it. */
  function ConflictsOf(ds: seq<Decl>): seq<Conflict> {
    Accumulate(ds, ConflictAt)
  }

  /** Declaration `i` of `ds` records conflict `c`. */
  predicate RecordedAt(ds: seq<Decl>, i: int, c: Conflict) {
    0 <= i < |ds| && c in ConflictAt(ds[..i], ds[i])
  }

  /** A conflict is recorded iff some declaration's property was seen
      before with another (value, important). */
  lemma ConflictsIff(ds: seq<Decl>, c: Conflict)
    ensures c in ConflictsOf(ds) <==> exists i :: RecordedAt(ds, i, c)
  {
    AccumulateIff(ds, ConflictAt, c);
    assert forall i :: RecordedAt(ds, i, c) <==> AddedAt(ds, ConflictAt, i, c);
  }

  /** The first declaration of a property never conflicts. */
  lemma FirstNeverConflicts(prefix: seq<Decl>, d: Decl)
    requires forall k :: 0 <= k < |prefix| ==> prefix[k].name != d.name
    ensures ConflictAt(prefix, d) == []
  {
  }

  /** One step of the `seen` loop. */
  lemma ConflictStep(done: seq<Decl>, t: Decl, seen: Dict<(string, bool)>)
    requires seen == LastBy(done, ValOf)
    ensures LastBy(done + [t], ValOf) == Put(seen, t.name, ValOf(t))
    ensures ConflictsOf(done + [t]) == ConflictsOf(done) +
      (if t.name in Keys(seen) && Get(seen, t.name) != ValOf(t)
       then [Conflict(t.name, Get(seen, t.name).0, Get(seen, t.name).1, t.value, t.important, t.line)] else [])
  {
    assert (done + [t])[..|done|] == done;
    LastBySpec(done, ValOf, t.name);
  }

  lemma AtLineSnoc(ds: seq<Decl>, line: nat, b: nat)
    requires b < |ds|
    ensures AtLine(ds[..b + 1], line) == AtLine(ds[..b], line) + [Decl(ds[b].name, ds[b].value, ds[b].important, line)]
  {
  }

  /** The declarations scanned so far grow by one declaration per step. */
  lemma ScannedSnoc(done: seq<Decl>, ds: seq<Decl>, line: nat, b: nat)
    requires b < |ds|
    ensures done + AtLine(ds[..b], line) + [Decl(ds[b].name, ds[b].value, ds[b].important, line)]
         == done + AtLine(ds[..b + 1], line)
  {
    AtLineSnoc(ds, line, b);
  }

  lemma FlattenSnoc(rs: seq<RuleRef>, a: nat)
    requires a < |rs|
    ensures Flatten(rs[..a + 1]) == Flatten(rs[..a]) + AtLine(rs[a].decls, rs[a].line)
  {
    assert rs[..a + 1][..a] == rs[..a];
  }

  /** The `seen` / `conflicts` loop over the blocks of one group. */
  method ScanConflicts(rs: seq<RuleRef>) returns (conflicts: seq<Conflict>)
    ensures conflicts == ConflictsOf(Flatten(rs))
  {
    var seen: Dict<(string, bool)> := [];
    conflicts := [];
    var a := 0;
    while a < |rs|
      invariant 0 <= a <= |rs|
      invariant seen == LastBy(Flatten(rs[..a]), ValOf)
      invariant conflicts == ConflictsOf(Flatten(rs[..a]))
    {
      seen, conflicts := ScanBlock(Flatten(rs[..a]), seen, conflicts, rs[a]);
      FlattenSnoc(rs, a);
      a := a + 1;
    }
    assert rs[..a] == rs;
  }

  /** The inner loop, over the declarations of one block. */
  method ScanBlock(ghost done: seq<Decl>, seen0: Dict<(string, bool)>, conflicts0: seq<Conflict>, rr: RuleRef)
    returns (seen: Dict<(string, bool)>, conflicts: seq<Conflict>)
    requires seen0 == LastBy(done, ValOf) && conflicts0 == ConflictsOf(done)
    ensures seen == LastBy(done + AtLine(rr.decls, rr.line), ValOf)
    ensures conflicts == ConflictsOf(done + AtLine(rr.decls, rr.line))
  {
    seen, conflicts := seen0, conflicts0;
    var b := 0;
    assert done + AtLine(rr.decls[..0], rr.line) == done;
    while b < |rr.decls|
      invariant 0 <= b <= |rr.decls|
      invariant seen == LastBy(done + AtLine(rr.decls[..b], rr.line), ValOf)
      invariant conflicts == ConflictsOf(done + AtLine(rr.decls[..b], rr.line))
    {
      ghost var cur := done + AtLine(rr.decls[..b], rr.line);
      var d := rr.decls[b];
      seen, conflicts := ScanDecl(cur, seen, conflicts, Decl(d.name, d.value, d.important, rr.line));
      ScannedSnoc(done, rr.decls, rr.line, b);
      b := b + 1;
    }
    assert rr.decls[..b] == rr.decls;
  }

  /** The body of the inner loop, for one declaration `t`. */
  method ScanDecl(ghost done: seq<Decl>, seen0: Dict<(string, bool)>, conflicts0: seq<Conflict>, t: Decl)
    returns (seen: Dict<(string, bool)>, conflicts: seq<Conflict>)
    requires seen0 == LastBy(done, ValOf) && conflicts0 == ConflictsOf(done)
    ensures seen == LastBy(done + [t], ValOf)
    ensures conflicts == ConflictsOf(done + [t])
  {
    ConflictStep(done, t, seen0);
    var val := (t.value, t.important);
    conflicts := conflicts0;
    if t.name in Keys(seen0) && Get(seen0, t.name) != val {
      conflicts := conflicts + [Conflict(t.name, Get(seen0, t.name).0, Get(seen0, t.name).1, val.0, val.1, t.line)];
    }
    seen := Put(seen0, t.name, val);
  }

  // ---------------------------------------------------------------------
  // Multi-blocks.

  datatype MultiBlock = MultiBlock(ctx: string, selector: string, occurrences: seq<nat>, conflicts: seq<Conflict>)

  function Lines(rs: seq<RuleRef>): (r: seq<nat>)
    ensures |r| == |rs|
    ensures forall k :: 0 <= k < |rs| ==> r[k] == rs[k].line
  {
    seq(|rs|, k requires 0 <= k < |rs| => rs[k].line)
  }

  predicate IsMulti(g: Group) {
    |g.members| > 1
  }

  /** The entry of a group: its blocks in line order and their conflicts. */
  function BlockOf(g: Group): MultiBlock {
    var sorted := Sort(g.members, LineLe);
    MultiBlock(g.ctx, g.selector, Lines(sorted), ConflictsOf(Flatten(sorted)))
  }

  function MultiBlocks(gs: seq<Group>): seq<MultiBlock> {
    FilterMap(gs, |gs|, IsMulti, BlockOf)
  }

  /** A multi-block's occurrences are the lines of its group's blocks, in
      ascending order and with their multiplicities. */
  lemma BlockOfSpec(g: Group)
    ensures |BlockOf(g).occurrences| == |g.members|
    ensures forall i, j :: 0 <= i < j < |g.members| ==> BlockOf(g).occurrences[i] <= BlockOf(g).occurrences[j]
    ensures multiset(BlockOf(g).occurrences) == multiset(Lines(g.members))
  {
    var sorted := Sort(g.members, LineLe);
    LineLeTotal();
    SortSorted(g.members, LineLe);
    LinesSort(g.members);
  }

  lemma LinesAppend(a: seq<RuleRef>, b: seq<RuleRef>)
    ensures Lines(a + b) == Lines(a) + Lines(b)
  {
  }

  lemma {:induction false} LinesInsert(s: seq<RuleRef>, x: RuleRef)
    ensures multiset(Lines(Insert(s, x, LineLe))) == multiset(Lines(s)) + multiset{x.line}
    decreases |s|
  {
    if s != [] && LineLe(s[0], x) {
      LinesInsert(s[1..], x);
      assert s == [s[0]] + s[1..];
      LinesAppend([s[0]], s[1..]);
      LinesAppend([s[0]], Insert(s[1..], x, LineLe));
    } else {
      LinesAppend([x], s);
    }
  }

  lemma LinesSnoc(s: seq<RuleRef>)
    requires s != []
    ensures multiset(Lines(s)) == multiset(Lines(s[..|s| - 1])) + multiset{s[|s| - 1].line}
  {
    var init, last := s[..|s| - 1], s[|s| - 1];
    assert s == init + [last];
    LinesAppend(init, [last]);
    assert Lines([last]) == [last.line];
  }

  /** Sorting the blocks by line keeps their lines. */
  lemma {:induction false} LinesSort(s: seq<RuleRef>)
    ensures multiset(Lines(Sort(s, LineLe))) == multiset(Lines(s))
    decreases |s|
  {
    if s != [] {
      var init, last := s[..|s| - 1], s[|s| - 1];
      assert Sort(s, LineLe) == Insert(Sort(init, LineLe), last, LineLe);
      LinesSort(init);
      LinesInsert(Sort(init, LineLe), last);
      LinesSnoc(s);
    }
  }

  /** `mb` is the entry of group `g`, which holds every rule of its key. */
  predicate BlockOfKey(rules: seq<RuleRef>, g: Group, mb: MultiBlock) {
    g.ctx == mb.ctx && g.selector == mb.selector && g.members == Members(rules, mb.ctx, mb.selector) && mb == BlockOf(g)
  }

  /** Every multi-block is a key with more than one block, and lists all
      blocks of that key. */
  lemma MultiBlocksSpec(rules: seq<RuleRef>, mb: MultiBlock)
    requires mb in MultiBlocks(Groups(rules))
    ensures |mb.occurrences| > 1
    ensures exists g :: g in Groups(rules) && BlockOfKey(rules, g, mb)
  {
    var gs := Groups(rules);
    GroupsGrouped(rules);
    FilterMapIff(gs, |gs|, IsMulti, BlockOf, mb);
    var k :| 0 <= k < |gs| && IsMulti(gs[k]) && mb == BlockOf(gs[k]);
    BlockOfSpec(gs[k]);
    assert BlockOfKey(rules, gs[k], mb);
  }

  /** A key with a member has a rule with that key. */
  lemma MembersWitness(rules: seq<RuleRef>, ctx: string, sel: string) returns (i: nat)
    requires Members(rules, ctx, sel) != []
    ensures i < |rules| && SameKey(rules[i], ctx, sel)
  {
    if forall j :: 0 <= j < |rules| ==> !SameKey(rules[j], ctx, sel) {
      MembersEmpty(rules, ctx, sel);
      assert false;
    }
    i :| 0 <= i < |rules| && SameKey(rules[i], ctx, sel);
  }

  /** Every key with more than one block has its multi-block, which lists
      all blocks of that key. */
  lemma MultiBlocksComplete(rules: seq<RuleRef>, ctx: string, sel: string)
    requires |Members(rules, ctx, sel)| > 1
    ensures exists g ::
      g in Groups(rules) && g.ctx == ctx && g.selector == sel &&
      BlockOf(g) in MultiBlocks(Groups(rules)) && BlockOfKey(rules, g, BlockOf(g))
  {
    var gs := Groups(rules);
    var i := MembersWitness(rules, ctx, sel);
    var k := FindGroup(gs, ctx, sel);
    assert k >= 0 && gs[k].members == Members(rules, ctx, sel) by {
      GroupsGrouped(rules);
      assert FindGroup(gs, rules[i].ctx, rules[i].selector) >= 0;
    }
    var g := gs[k];
    assert BlockOf(g) in MultiBlocks(gs) by {
      FilterMapIff(gs, |gs|, IsMulti, BlockOf, BlockOf(g));
    }
    assert g in gs && BlockOfKey(rules, g, BlockOf(g));
  }

  /** A key has at most one multi-block. */
  lemma MultiBlocksKeyUnique(rules: seq<RuleRef>, a: MultiBlock, b: MultiBlock)
    requires a in MultiBlocks(Groups(rules)) && b in MultiBlocks(Groups(rules))
    requires a.ctx == b.ctx && a.selector == b.selector
    ensures a == b
  {
    MultiBlocksSpec(rules, a);
    MultiBlocksSpec(rules, b);
    var ga :| ga in Groups(rules) && BlockOfKey(rules, ga, a);
    var gb :| gb in Groups(rules) && BlockOfKey(rules, gb, b);
    assert ga == gb;
  }

  /** `sum(1 for x in multi_blocks if len(x["occurrences"]) > 1)` over
      the first `n` multi-blocks. */
  function MultiCount(mbs: seq<MultiBlock>, n: nat): (c: nat)
    requires n <= |mbs|
    ensures c <= n
  {
    if n == 0 then 0 else MultiCount(mbs, n - 1) + (if |mbs[n - 1].occurrences| > 1 then 1 else 0)
  }

  lemma {:induction false} MultiCountAll(mbs: seq<MultiBlock>, n: nat)
    requires n <= |mbs| && forall i :: 0 <= i < n ==> |mbs[i].occurrences| > 1
    ensures MultiCount(mbs, n) == n
  {
    if n > 0 {
      MultiCountAll(mbs, n - 1);
    }
  }

  /** The multi-block count is the number of multi-blocks. */
  lemma MultiCountIsLength(rules: seq<RuleRef>)
    ensures var mbs := MultiBlocks(Groups(rules)); MultiCount(mbs, |mbs|) == |mbs|
  {
    var mbs := MultiBlocks(Groups(rules));
    forall i | 0 <= i < |mbs| ensures |mbs[i].occurrences| > 1 {
      assert mbs[i] in mbs;
      MultiBlocksSpec(rules, mbs[i]);
    }
    MultiCountAll(mbs, |mbs|);
  }

  /** The counting expression of the report. */
  method CountMulti(mbs: seq<MultiBlock>) returns (count: nat)
    ensures count == MultiCount(mbs, |mbs|)
  {
    count := 0;
    var i := 0;
    while i < |mbs|
      invariant 0 <= i <= |mbs|
      invariant count == MultiCount(mbs, i)
    {
      if |mbs[i].occurrences| > 1 {
        count := count + 1;
      }
      i := i + 1;
    }
  }

  /** The multi-block loop of `main`. */
  method BuildMultiBlocks(gs: seq<Group>) returns (mbs: seq<MultiBlock>)
    ensures mbs == MultiBlocks(gs)
  {
    mbs := [];
    var i := 0;
    while i < |gs|
      invariant 0 <= i <= |gs|
      invariant mbs == FilterMap(gs, i, IsMulti, BlockOf)
    {
      mbs := AddMultiBlock(gs, i, mbs);
      i := i + 1;
    }
  }

  /** One turn of that loop: a group with several blocks adds its entry. */
  method AddMultiBlock(gs: seq<Group>, i: nat, mbs0: seq<MultiBlock>) returns (mbs: seq<MultiBlock>)
    requires i < |gs| && mbs0 == FilterMap(gs, i, IsMulti, BlockOf)
    ensures mbs == FilterMap(gs, i + 1, IsMulti, BlockOf)
  {
    var g := gs[i];
    mbs := mbs0;
    if |g.members| > 1 {
      var sorted := Sort(g.members, LineLe);
      var conflicts := ScanConflicts(sorted);
      mbs := mbs + [MultiBlock(g.ctx, g.selector, Lines(sorted), conflicts)];
    }
  }

  // ---------------------------------------------------------------------
  // Report order.

  /** `key=lambda x: (-len(x["occurrences"]), x["selector"])`. */
  function ReportLe(a: MultiBlock, b: MultiBlock): bool {
    |a.occurrences| > |b.occurrences| ||
    (|a.occurrences| == |b.occurrences| && StrLe(a.selector, b.selector))
  }

  lemma ReportLeTotal()
    ensures TotalPreorder(ReportLe)
  {
    forall a: MultiBlock, b: MultiBlock ensures ReportLe(a, b) || ReportLe(b, a) {
      StrLeTotal(a.selector, b.selector);
    }
    forall a: MultiBlock, b: MultiBlock, c: MultiBlock | ReportLe(a, b) && ReportLe(b, c) ensures ReportLe(a, c) {
      if |a.occurrences| == |b.occurrences| == |c.occurrences| {
        StrLeTrans(a.selector, b.selector, c.selector);
      }
    }
  }

  /** The listed multi-blocks: sorted, then the first 400. */
  function Listed(mbs: seq<MultiBlock>): seq<MultiBlock> {
    Take(Sort(mbs, ReportLe), MULTI_BLOCK_LIMIT)
  }

  /** At most 400 entries, each a multi-block, more occurrences first and
      equal counts by selector; all of them when there are at most 400. */
  lemma ListedSpec(mbs: seq<MultiBlock>)
    ensures |Listed(mbs)| <= MULTI_BLOCK_LIMIT
    ensures forall x :: x in Listed(mbs) ==> x in mbs
    ensures Sorted(Listed(mbs), ReportLe)
    ensures |mbs| <= MULTI_BLOCK_LIMIT ==> multiset(Listed(mbs)) == multiset(mbs)
  {
    var s := Sort(mbs, ReportLe);
    ReportLeTotal();
    SortSorted(mbs, ReportLe);
    forall x | x in Listed(mbs) ensures x in mbs {
      assert x in multiset(s);
    }
  }

  // ---------------------------------------------------------------------
  // The report.

  datatype AuditReport = AuditReport(
    totalRules: nat, unusedCount: nat, domErrorsCount: nat, multiBlocksCount: nat,
    unused: seq<RuleNote>, domErrors: seq<RuleNote>, multiBlocks: seq<MultiBlock>)

  function ReportOf(rules: seq<RuleRef>, parse: string -> Option<seq<Selector>>, hasHit: Selector -> bool): AuditReport {
    var unused := Unused(rules, |rules|, parse, hasHit);
    var errors := ParseErrors(rules, |rules|, parse);
    var mbs := MultiBlocks(Groups(rules));
    AuditReport(|rules|, |unused|, |errors|, MultiCount(mbs, |mbs|), unused, errors, Listed(mbs))
  }

  /** `main` without the file I/O. */
  method Run(stylesheet: seq<Rule>, parse: string -> Option<seq<Selector>>, hasHit: Selector -> bool)
    returns (report: AuditReport)
    ensures report == ReportOf(Inventory(WalkRules(stylesheet, "")), parse, hasHit)
  {
    var rules := BuildInventory(WalkRules(stylesheet, ""));
    var unused, errors := DomReport(rules, parse, hasHit);
    var gs := GroupRules(rules);
    var mbs := BuildMultiBlocks(gs);
    var count := CountMulti(mbs);
    report := AuditReport(|rules|, |unused|, |errors|, count, unused, errors, Take(Sort(mbs, ReportLe), MULTI_BLOCK_LIMIT));
  }
}
