/** The parse trees the CSS tools receive from their parser, and the two
    helpers every tool shares: the walk that flattens nested rule lists into
    qualified rules with an at-rule context string, and the list of a
    rule's declarations as the tools serialise them. Keywords and property
    names arrive already lower-cased; preludes and values are the parser's
    serialisation of their tokens, which the tools then strip. */
module CssAst {
  import opened Wrappers
  import opened Strings
  import opened OrderedDict

  /** An entry of a declaration list: a declaration, or anything else
      (a nested at-rule, a parse error), which the tools skip. */
  datatype Item =
    | Declaration(name: string, value: string, important: bool, line: nat)
    | OtherItem

  /** An at-rule's content: none for the semicolon form (`@import x;`),
      otherwise its parsed inner rules. */
  datatype Block = NoBlock | Block(rules: seq<Rule>)

  /** An entry of a rule list; `OtherRule` is a parse error or anything
      that is neither an at-rule nor a qualified rule. */
  datatype Rule =
    | AtRule(keyword: string, prelude: string, content: Block)
    | QualifiedRule(prelude: string, items: Option<seq<Item>>, line: nat)
    | OtherRule

  /** A qualified rule found by the walk, with its stripped at-rule context. */
  datatype Walked = Walked(ctx: string, prelude: string, items: Option<seq<Item>>, line: nat)

  /** A declaration as the tools record it: name, stripped value, whether
      it is `!important`, and its source line. */
  datatype Decl = Decl(name: string, value: string, important: bool, line: nat)

  function DeclOf(it: Item): Decl
    requires it.Declaration?
  {
    Decl(it.name, Trim(it.value), it.important, it.line)
  }

  /** The declarations of an item list, skipping other items, in order. */
  function DeclList(items: seq<Item>): (r: seq<Decl>)
    ensures |r| <= |items|
    ensures forall i :: 0 <= i < |r| ==> NoSpaceAtEnds(r[i].value)
    decreases |items|
  {
    if items == [] then []
    else
      var last := items[|items| - 1];
      DeclList(items[..|items| - 1]) + (if last.Declaration? then [DeclOf(last)] else [])
  }

  /** `_serialize_declarations(rule)`: nothing for a rule without content. */
  function DeclsOf(items: Option<seq<Item>>): seq<Decl> {
    if items.None? then [] else DeclList(items.value)
  }

  /** A list of declarations only yields one record per declaration, in order. */
  lemma {:induction false} DeclListOfDeclarations(items: seq<Item>)
    requires forall i :: 0 <= i < |items| ==> items[i].Declaration?
    ensures |DeclList(items)| == |items|
    ensures forall i :: 0 <= i < |items| ==> DeclList(items)[i] == DeclOf(items[i])
    decreases |items|
  {
    if items != [] {
      var init := items[..|items| - 1];
      var last := items[|items| - 1];
      assert forall i :: 0 <= i < |init| ==> init[i] == items[i];
      DeclListOfDeclarations(init);
      assert DeclList(items) == DeclList(init) + [DeclOf(last)];
      forall i | 0 <= i < |items| ensures DeclList(items)[i] == DeclOf(items[i]) {
        if i < |init| {
          assert DeclList(items)[i] == DeclList(init)[i];
        }
      }
    }
  }

  /** The list of an item sequence is the lists of its parts, in order. */
  lemma {:induction false} DeclListAppend(a: seq<Item>, b: seq<Item>)
    ensures DeclList(a + b) == DeclList(a) + DeclList(b)
    decreases |b|
  {
    if b == [] {
      assert a + b == a;
    } else {
      assert (a + b)[..|a + b| - 1] == a + b[..|b| - 1];
      DeclListAppend(a, b[..|b| - 1]);
    }
  }

  /** Non-declaration items make no difference. */
  lemma DeclListSkipsOther(a: seq<Item>, b: seq<Item>)
    ensures DeclList(a + [OtherItem] + b) == DeclList(a + b)
  {
    DeclListAppend(a + [OtherItem], b);
    DeclListAppend(a, [OtherItem]);
    DeclListAppend(a, b);
    assert DeclList([OtherItem]) == [];
  }

  /** Declaration `i` is the last one of `name` in `decls`. */
  predicate IsLast(decls: seq<Decl>, i: int, name: string) {
    0 <= i < |decls| && decls[i].name == name &&
    forall k :: i < k < |decls| ==> decls[k].name != name
  }

  /** `max(i for i, d in enumerate(decls) if d.name == name)`, or -1 when
      there is none. */
  function LastIndex(decls: seq<Decl>, name: string): (r: int)
    ensures -1 <= r < |decls|
    ensures r >= 0 ==> IsLast(decls, r, name)
    ensures r == -1 ==> forall k :: 0 <= k < |decls| ==> decls[k].name != name
    decreases |decls|
  {
    if decls == [] then -1
    else if decls[|decls| - 1].name == name then |decls| - 1
    else LastIndex(decls[..|decls| - 1], name)
  }

  /** The last declaration of a name is the one `LastIndex` finds. */
  lemma LastIndexOfIsLast(decls: seq<Decl>, i: int, name: string)
    requires IsLast(decls, i, name)
    ensures LastIndex(decls, name) == i
  {
    var r := LastIndex(decls, name);
    assert decls[i].name == name;
  }

  /** The dict a loop `seen[d.name] = f(d)` over `decls` leaves behind. */
  function LastBy<V>(decls: seq<Decl>, f: Decl -> V): (d: Dict<V>)
    ensures UniqueKeys(d)
    decreases |decls|
  {
    if decls == [] then []
    else Put(LastBy(decls[..|decls| - 1], f), decls[|decls| - 1].name, f(decls[|decls| - 1]))
  }

  /** That dict holds a name iff some declaration has it, and then maps it
      to `f` of the last such declaration. */
  lemma {:induction false} LastBySpec<V>(decls: seq<Decl>, f: Decl -> V, k: string)
    ensures k in Keys(LastBy(decls, f)) <==> LastIndex(decls, k) >= 0
    ensures k in Keys(LastBy(decls, f)) ==> Get(LastBy(decls, f), k) == f(decls[LastIndex(decls, k)])
    decreases |decls|
  {
    if decls != [] {
      LastBySpec(decls[..|decls| - 1], f, k);
    }
  }

  /** One step of that loop. */
  lemma LastBySnoc<V>(decls: seq<Decl>, f: Decl -> V, i: nat)
    requires i < |decls|
    ensures LastBy(decls[..i + 1], f) == Put(LastBy(decls[..i], f), decls[i].name, f(decls[i]))
  {
    assert decls[..i + 1][..i] == decls[..i];
  }

  /** The context key of an at-rule: `f"{ctx}@{kw} {prelude}".strip()`. */
  function AtKey(ctx: string, keyword: string, prelude: string): string {
    Trim(ctx + "@" + keyword + " " + Trim(prelude))
  }

  /** `_walk_rules`: the qualified rules of a rule list in source order,
      each with the stripped context of the at-rules around it. */
  function WalkRules(rules: seq<Rule>, ctx: string): (r: seq<Walked>)
    ensures forall i :: 0 <= i < |r| ==> NoSpaceAtEnds(r[i].ctx)
    decreases rules
  {
    if rules == [] then [] else WalkRule(rules[0], ctx) + WalkRules(rules[1..], ctx)
  }

  /** One entry of the walk: an at-rule without a block is skipped, one
      with a block is walked with context `key + " | "`. */
  function WalkRule(r: Rule, ctx: string): (w: seq<Walked>)
    ensures forall i :: 0 <= i < |w| ==> NoSpaceAtEnds(w[i].ctx)
    decreases r
  {
    match r
    case AtRule(_, _, NoBlock) => []
    case AtRule(kw, prelude, Block(inner)) => WalkRules(inner, AtKey(ctx, kw, prelude) + " | ")
    case QualifiedRule(prelude, items, line) => [Walked(Trim(ctx), prelude, items, line)]
    case OtherRule => []
  }

  /** The walk of a concatenation is the concatenation of the walks: source
      order is kept across the whole stylesheet. */
  lemma {:induction false} WalkAppend(a: seq<Rule>, b: seq<Rule>, ctx: string)
    ensures WalkRules(a + b, ctx) == WalkRules(a, ctx) + WalkRules(b, ctx)
    decreases |a|
  {
    if a == [] {
      assert a + b == b;
    } else {
      assert (a + b)[0] == a[0];
      assert (a + b)[1..] == a[1..] + b;
      WalkAppend(a[1..], b, ctx);
    }
  }

  /** A stylesheet of qualified rules only is walked rule for rule, with an
      empty context. */
  lemma {:induction false} WalkFlat(rules: seq<Rule>)
    requires forall i :: 0 <= i < |rules| ==> rules[i].QualifiedRule?
    ensures |WalkRules(rules, "")| == |rules|
    ensures forall i :: 0 <= i < |rules| ==>
      WalkRules(rules, "")[i] == Walked("", rules[i].prelude, rules[i].items, rules[i].line)
    decreases |rules|
  {
    if rules != [] {
      var tail := rules[1..];
      WalkFlat(tail);
      var head := Walked("", rules[0].prelude, rules[0].items, rules[0].line);
      WalkQualifiedHead(rules);
      var w := WalkRules(rules, "");
      var wt := WalkRules(tail, "");
      forall i | 0 < i < |rules|
        ensures w[i] == Walked("", rules[i].prelude, rules[i].items, rules[i].line)
      {
        assert w[i] == wt[i - 1];
        assert tail[i - 1] == rules[i];
      }
    }
  }

  lemma WalkQualifiedHead(rules: seq<Rule>)
    requires rules != [] && rules[0].QualifiedRule?
    ensures WalkRules(rules, "") ==
      [Walked("", rules[0].prelude, rules[0].items, rules[0].line)] + WalkRules(rules[1..], "")
  {
    assert WalkRule(rules[0], "") == [Walked("", rules[0].prelude, rules[0].items, rules[0].line)];
  }

  /** An at-rule without a block contributes nothing. */
  lemma WalkSkipsBlockless(keyword: string, prelude: string, rest: seq<Rule>, ctx: string)
    ensures WalkRules([AtRule(keyword, prelude, NoBlock)] + rest, ctx) == WalkRules(rest, ctx)
  {
    var s := [AtRule(keyword, prelude, NoBlock)] + rest;
    assert s[0] == AtRule(keyword, prelude, NoBlock) && s[1..] == rest;
  }

  /** A top-level key starts with "@". */
  lemma TopKeyShape(keyword: string, prelude: string)
    ensures var key := AtKey("", keyword, prelude);
      key != [] && key[0] == '@' && NoSpaceAtEnds(key)
  {
    var raw := "" + "@" + keyword + " " + Trim(prelude);
    assert raw[0] == '@' && !IsSpace(raw[0]);
    assert TrimLeft(raw) == raw;
    assert AtKey("", keyword, prelude) == TrimRight(raw);
    TrimRightDropsSpaces(raw);
  }

  /** So stripping the separator after a top-level key removes only the
      final space. */
  lemma TopKeyContext(keyword: string, prelude: string)
    ensures var key := AtKey("", keyword, prelude);
      Trim(key + " | ") == key + " |"
  {
    var key := AtKey("", keyword, prelude);
    TopKeyShape(keyword, prelude);
    var x := key + " |";
    assert x[0] == '@' && x[|x| - 1] == '|';
    assert key + " | " == "" + x + " ";
    TrimSpaces("", x, " ");
  }

  /** A rule directly inside a top-level at-rule gets the context
      "@kw prelude |": the key, then the separator with its trailing
      space stripped. */
  lemma WalkNestedContext(keyword: string, prelude: string, sel: string, items: Option<seq<Item>>, line: nat)
    ensures var key := AtKey("", keyword, prelude);
      WalkRules([AtRule(keyword, prelude, Block([QualifiedRule(sel, items, line)]))], "") ==
        [Walked(key + " |", sel, items, line)]
  {
    var key := AtKey("", keyword, prelude);
    var inner := [QualifiedRule(sel, items, line)];
    var outer := [AtRule(keyword, prelude, Block(inner))];
    WalkSingle(outer[0], "");
    WalkSingle(inner[0], key + " | ");
    TopKeyContext(keyword, prelude);
  }

  lemma WalkSingle(r: Rule, ctx: string)
    ensures WalkRules([r], ctx) == WalkRule(r, ctx)
  {
    assert [r][1..] == [];
  }
}
