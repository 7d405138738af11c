/** The compact serialiser: every rule on no line of its own, comments and
    layout whitespace gone, rule order and at-rule nesting kept. */
module CompactCss {
  import opened Wrappers
  import opened Strings
  import opened CssAst

  /** `f"{name}:{value}{important}"`. */
  function DeclText(d: Decl): string {
    d.name + ":" + d.value + (if d.important then " !important" else "")
  }

  function DeclTexts(ds: seq<Decl>): (r: seq<string>)
    ensures |r| == |ds|
    ensures forall k :: 0 <= k < |ds| ==> r[k] == DeclText(ds[k])
  {
    seq(|ds|, k requires 0 <= k < |ds| => DeclText(ds[k]))
  }

  /** The declaration loop of `serialize_rule_list`: the texts of the
      declarations of a rule's content, other items dropped. */
  method SerializeDecls(items: seq<Item>) returns (texts: seq<string>)
    ensures texts == DeclTexts(DeclList(items))
  {
    texts := [];
    var i := 0;
    while i < |items|
      invariant 0 <= i <= |items|
      invariant texts == DeclTexts(DeclList(items[..i]))
    {
      texts := SerializeDecl(items, i, texts);
      i := i + 1;
    }
    assert items[..i] == items;
  }

  /** One turn of the declaration loop. */
  method SerializeDecl(items: seq<Item>, i: nat, texts0: seq<string>) returns (texts: seq<string>)
    requires i < |items| && texts0 == DeclTexts(DeclList(items[..i]))
    ensures texts == DeclTexts(DeclList(items[..i + 1]))
  {
    var prefix := items[..i + 1];
    assert prefix[..i] == items[..i] && prefix[i] == items[i];
    var d := items[i];
    texts := texts0;
    if d.Declaration? {
      DeclTextsSnoc(DeclList(items[..i]), DeclOf(d));
      texts := texts + [d.name + ":" + Trim(d.value) + (if d.important then " !important" else "")];
    }
  }

  lemma DeclTextsSnoc(ds: seq<Decl>, d: Decl)
    ensures DeclTexts(ds + [d]) == DeclTexts(ds) + [DeclText(d)]
  {
    var a, b := DeclTexts(ds + [d]), DeclTexts(ds) + [DeclText(d)];
    assert forall k :: 0 <= k < |ds| ==> (ds + [d])[k] == ds[k];
    assert |a| == |b| && forall k :: 0 <= k < |a| ==> a[k] == b[k];
  }

  /** One rule of a rule list. */
  function RuleText(r: Rule): string
    decreases r
  {
    match r
    case AtRule(kw, prelude, NoBlock) =>
      var p := Trim(prelude);
      if p != [] then "@" + kw + " " + p + ";" else "@" + kw + ";"
    case AtRule(kw, prelude, Block(inner)) =>
      var p := Trim(prelude);
      (if p != [] then "@" + kw + " " + p else "@" + kw) + "{" + RuleListText(inner) + "}"
    case QualifiedRule(prelude, None, _) => ""
    case QualifiedRule(prelude, Some(items), _) =>
      Trim(prelude) + "{" + Join(DeclTexts(DeclList(items)), ";") + "}"
    case OtherRule => ""
  }

  /** `serialize_rule_list`: the rules one after another. */
  function RuleListText(rules: seq<Rule>): string
    decreases rules
  {
    if rules == [] then [] else RuleText(rules[0]) + RuleListText(rules[1..])
  }

  /** `compact_css`: the serialised stylesheet and one trailing newline. */
  function Compact(stylesheet: seq<Rule>): (out: string)
    ensures |out| >= 1 && out[|out| - 1] == '\n'
    ensures out[..|out| - 1] == RuleListText(stylesheet)
  {
    RuleListText(stylesheet) + "\n"
  }

  // ---------------------------------------------------------------------
  // Order.

  /** The texts `f` gives the rules of `rules`, one after another. */
  function ConcatOf(f: Rule -> string, rules: seq<Rule>): string
    decreases |rules|
  {
    if rules == [] then [] else f(rules[0]) + ConcatOf(f, rules[1..])
  }

  lemma {:induction false} ConcatOfAppend(f: Rule -> string, a: seq<Rule>, b: seq<Rule>)
    ensures ConcatOf(f, a + b) == ConcatOf(f, a) + ConcatOf(f, b)
    decreases |a|
  {
    if a == [] {
      assert a + b == b;
    } else {
      assert (a + b)[0] == a[0];
      assert (a + b)[1..] == a[1..] + b;
      ConcatOfAppend(f, a[1..], b);
    }
  }

  /** `serialize_rule_list` maps `RuleText` over the list. */
  lemma {:induction false} RuleListIsConcatOf(rules: seq<Rule>)
    ensures RuleListText(rules) == ConcatOf(RuleText, rules)
    decreases |rules|
  {
    if rules != [] {
      RuleListIsConcatOf(rules[1..]);
    }
  }

  /** The serialisation of a rule list is the serialisations of its parts
      in order, so no rule moves. */
  lemma RuleListAppend(a: seq<Rule>, b: seq<Rule>)
    ensures RuleListText(a + b) == RuleListText(a) + RuleListText(b)
  {
    RuleListIsConcatOf(a + b);
    RuleListIsConcatOf(a);
    RuleListIsConcatOf(b);
    ConcatOfAppend(RuleText, a, b);
  }

  /** The whole list is the concatenation of its rules one by one. */
  lemma {:induction false} RuleListIsConcat(rules: seq<Rule>, i: nat)
    requires i < |rules|
    ensures RuleListText(rules) == RuleListText(rules[..i]) + RuleText(rules[i]) + RuleListText(rules[i + 1..])
  {
    assert rules == rules[..i] + [rules[i]] + rules[i + 1..];
    RuleListAppend(rules[..i] + [rules[i]], rules[i + 1..]);
    RuleListAppend(rules[..i], [rules[i]]);
    assert RuleListText([rules[i]]) == RuleText(rules[i]) + RuleListText([]);
  }

  /** A qualified rule without content and anything else that is not a
      rule leave no trace. */
  lemma DroppedRules(prelude: string, line: nat, rest: seq<Rule>)
    ensures RuleListText([QualifiedRule(prelude, None, line)] + rest) == RuleListText(rest)
    ensures RuleListText([OtherRule] + rest) == RuleListText(rest)
  {
    assert ([QualifiedRule(prelude, None, line)] + rest)[1..] == rest;
    assert ([OtherRule] + rest)[1..] == rest;
  }

  /** Items that are not declarations do not change a rule's text. */
  lemma SkipsOtherItems(prelude: string, a: seq<Item>, b: seq<Item>, line: nat)
    ensures RuleText(QualifiedRule(prelude, Some(a + [OtherItem] + b), line)) == RuleText(QualifiedRule(prelude, Some(a + b), line))
  {
    DeclListSkipsOther(a, b);
  }

  // ---------------------------------------------------------------------
  // Declarations can be read back.

  /** A name and a value with no `;` in either. */
  predicate NoSemicolon(d: Decl) {
    ';' !in d.name && ';' !in d.value
  }

  /** The text between the braces of a rule with at least one declaration
      splits on `;` into exactly the declaration texts, in order, as long
      as no name or value contains `;`. */
  lemma DeclarationsReadBack(items: seq<Item>)
    requires DeclList(items) != []
    requires forall i :: 0 <= i < |DeclList(items)| ==> NoSemicolon(DeclList(items)[i])
    ensures Split(Join(DeclTexts(DeclList(items)), ";"), ';') == DeclTexts(DeclList(items))
  {
    var ds := DeclList(items);
    var ts := DeclTexts(ds);
    forall i | 0 <= i < |ts| ensures ';' !in ts[i] {
      assert NoSemicolon(ds[i]);
      assert ts[i] == ds[i].name + ":" + ds[i].value + (if ds[i].important then " !important" else "");
    }
    SplitJoin(ts, ';');
  }

  /** A declaration text splits at its first `:` into the name and the
      value with its `!important` marker, when the name has no `:`. */
  lemma DeclTextReadBack(d: Decl)
    requires ':' !in d.name
    ensures PartitionFirst(DeclText(d), ':') == (d.name, d.value + (if d.important then " !important" else ""))
  {
    var t := DeclText(d);
    var rest := d.value + (if d.important then " !important" else "");
    assert t == d.name + [':'] + rest;
    FindCharAfter(d.name, ':', rest);
    assert t[..|d.name|] == d.name;
    assert t[|d.name| + 1..] == rest;
  }

  // ---------------------------------------------------------------------
  // Nesting.

  /** The brace depth after `s` when starting at depth `d`; None when a
      `}` would close more than is open. */
  function Close(s: string, d: nat): Option<nat>
    decreases |s|
  {
    if s == [] then Some(d)
    else if s[0] == '{' then Close(s[1..], d + 1)
    else if s[0] == '}' then (if d == 0 then None else Close(s[1..], d - 1))
    else Close(s[1..], d)
  }

  /** Every `{` closed by a later `}` and no `}` without its `{`. */
  predicate Balanced(s: string) {
    Close(s, 0) == Some(0)
  }

  lemma {:induction false} CloseAppend(a: string, b: string, d: nat)
    ensures Close(a + b, d) == if Close(a, d).None? then None else Close(b, Close(a, d).value)
    decreases |a|
  {
    if a == [] {
      assert a + b == b;
    } else {
      assert (a + b)[0] == a[0];
      assert (a + b)[1..] == a[1..] + b;
      if a[0] == '{' {
        CloseAppend(a[1..], b, d + 1);
      } else if a[0] == '}' {
        if d > 0 {
          CloseAppend(a[1..], b, d - 1);
        }
      } else {
        CloseAppend(a[1..], b, d);
      }
    }
  }

  /** Text without braces leaves the depth as it was. */
  lemma {:induction false} CloseNoBraces(s: string, d: nat)
    requires '{' !in s && '}' !in s
    ensures Close(s, d) == Some(d)
    decreases |s|
  {
    if s != [] {
      assert s[0] in s;
      assert forall c :: c in s[1..] ==> c in s;
      CloseNoBraces(s[1..], d);
    }
  }

  lemma {:induction false} CloseShift(s: string, d: nat, k: nat)
    requires Close(s, d) == Some(d)
    ensures Close(s, d + k) == Some(d + k)
  {
    CloseShiftAny(s, d, k, d);
  }

  lemma {:induction false} CloseShiftAny(s: string, d: nat, k: nat, e: nat)
    requires Close(s, d) == Some(e)
    ensures Close(s, d + k) == Some(e + k)
    decreases |s|
  {
    if s != [] {
      if s[0] == '{' {
        CloseShiftAny(s[1..], d + 1, k, e);
      } else if s[0] == '}' {
        CloseShiftAny(s[1..], d - 1, k, e);
      } else {
        CloseShiftAny(s[1..], d, k, e);
      }
    }
  }

  lemma BalancedAppend(a: string, b: string)
    requires Balanced(a) && Balanced(b)
    ensures Balanced(a + b)
  {
    CloseAppend(a, b, 0);
  }

  /** `prefix{inner}` is balanced when `inner` is and `prefix` has no braces. */
  lemma BalancedWrap(prefix: string, inner: string)
    requires '{' !in prefix && '}' !in prefix && Balanced(inner)
    ensures Balanced(prefix + "{" + inner + "}")
  {
    var wrapped := "{" + (inner + "}");
    assert prefix + "{" + inner + "}" == prefix + wrapped;
    CloseNoBraces(prefix, 0);
    CloseAppend(prefix, wrapped, 0);
    assert wrapped[0] == '{' && wrapped[1..] == inner + "}";
    CloseShift(inner, 0, 1);
    CloseAppend(inner, "}", 1);
    assert Close("}", 1) == Some(0);
  }

  predicate BraceFree(s: string) {
    '{' !in s && '}' !in s
  }

  /** No keyword, prelude, name or value of the tree holds a brace. */
  predicate RuleBraceFree(r: Rule)
    decreases r
  {
    match r
    case AtRule(kw, prelude, NoBlock) => BraceFree(kw) && BraceFree(prelude)
    case AtRule(kw, prelude, Block(inner)) => BraceFree(kw) && BraceFree(prelude) && ListBraceFree(inner)
    case QualifiedRule(prelude, items, _) =>
      BraceFree(prelude) && (items.Some? ==> forall i :: 0 <= i < |items.value| ==> ItemBraceFree(items.value[i]))
    case OtherRule => true
  }

  predicate ListBraceFree(rules: seq<Rule>)
    decreases rules
  {
    forall i :: 0 <= i < |rules| ==> RuleBraceFree(rules[i])
  }

  predicate ItemBraceFree(it: Item) {
    it.Declaration? ==> BraceFree(it.name) && BraceFree(it.value)
  }

  lemma BraceFreeAppend(a: string, b: string)
    requires BraceFree(a) && BraceFree(b)
    ensures BraceFree(a + b)
  {
  }

  lemma {:induction false} TrimBraceFree(s: string)
    requires BraceFree(s)
    ensures BraceFree(Trim(s))
  {
    TrimChars(s);
  }

  lemma {:induction false} DeclsBraceFree(items: seq<Item>)
    requires forall i :: 0 <= i < |items| ==> ItemBraceFree(items[i])
    ensures BraceFree(Join(DeclTexts(DeclList(items)), ";"))
  {
    var ds := DeclList(items);
    DeclListBraceFree(items);
    JoinBraceFree(DeclTexts(ds));
  }

  lemma {:induction false} DeclListBraceFree(items: seq<Item>)
    requires forall i :: 0 <= i < |items| ==> ItemBraceFree(items[i])
    ensures forall k :: 0 <= k < |DeclList(items)| ==> BraceFree(DeclText(DeclList(items)[k]))
    decreases |items|
  {
    if items != [] {
      var init, last := items[..|items| - 1], items[|items| - 1];
      DeclListBraceFree(init);
      if last.Declaration? {
        TrimBraceFree(last.value);
      }
    }
  }

  lemma {:induction false} JoinBraceFree(parts: seq<string>)
    requires forall k :: 0 <= k < |parts| ==> BraceFree(parts[k])
    ensures BraceFree(Join(parts, ";"))
    decreases |parts|
  {
    if |parts| > 1 {
      JoinBraceFree(parts[1..]);
    }
  }

  /** Nesting is kept: when no keyword, prelude, name or value holds a
      brace, every brace of the output is one that the serialiser wrote
      around a rule's content, and they pair up. */
  lemma {:induction false} RuleBalanced(r: Rule)
    requires RuleBraceFree(r)
    ensures Balanced(RuleText(r))
    decreases r
  {
    match r
    case AtRule(kw, prelude, NoBlock) =>
      TrimBraceFree(prelude);
      CloseNoBraces(RuleText(r), 0);
    case AtRule(kw, prelude, Block(inner)) =>
      TrimBraceFree(prelude);
      ListBalanced(inner);
      var p := Trim(prelude);
      BalancedWrap(if p != [] then "@" + kw + " " + p else "@" + kw, RuleListText(inner));
    case QualifiedRule(prelude, None, _) =>
    case QualifiedRule(prelude, Some(items), _) =>
      TrimBraceFree(prelude);
      DeclsBraceFree(items);
      var body := Join(DeclTexts(DeclList(items)), ";");
      CloseNoBraces(body, 0);
      BalancedWrap(Trim(prelude), body);
    case OtherRule =>
  }

  lemma {:induction false} ListBalanced(rules: seq<Rule>)
    requires ListBraceFree(rules)
    ensures Balanced(RuleListText(rules))
    decreases rules
  {
    if rules != [] {
      assert RuleBraceFree(rules[0]);
      RuleBalanced(rules[0]);
      ListBalanced(rules[1..]);
      BalancedAppend(RuleText(rules[0]), RuleListText(rules[1..]));
    }
  }

  /** The compact stylesheet is balanced too: the newline adds no brace. */
  lemma CompactBalanced(stylesheet: seq<Rule>)
    requires ListBraceFree(stylesheet)
    ensures Balanced(Compact(stylesheet))
  {
    ListBalanced(stylesheet);
    CloseAppend(RuleListText(stylesheet), "\n", 0);
  }
}
