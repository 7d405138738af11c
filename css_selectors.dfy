/** The selector trees the audit receives from its selector parser, the
    removal of interactive pseudo-classes from them before DOM matching,
    and the whitespace normalisation of selector text used for grouping. */
module CssSelectors {
  import opened Strings
  import opened Lists

  /** The state-dependent pseudo-classes a static DOM snapshot cannot
      match; selectors are matched with these removed. */
  const INTERACTIVE_PSEUDO_CLASSES: set<string> :=
    {"hover", "active", "focus", "focus-within", "focus-visible", "visited", "link",
     "checked", "disabled", "enabled", "target"}

  /** A selector tree: two selectors joined by a combinator, a compound
      selector, or any other node, which is left as it is. */
  datatype Selector =
    | Combined(left: Selector, combinator: string, right: Selector)
    | Compound(simples: seq<Simple>)
    | OtherNode(text: string)

  /** A simple selector inside a compound one. */
  datatype Simple =
    | PseudoClass(name: string)
    | Negation(args: seq<Selector>)
    | OtherSimple(text: string)

  predicate Interactive(s: Simple) {
    s.PseudoClass? && s.name in INTERACTIVE_PSEUDO_CLASSES
  }

  // ---------------------------------------------------------------------
  // The string form of a tree.

  /** The selector's string form: the parts written one after another,
      `:name` for a pseudo-class, `:not(a, b)` for a negation. An empty
      compound selector is the empty string. */
  function Text(n: Selector): string
    decreases n
  {
    match n
    case Combined(l, c, r) => Text(l) + c + Text(r)
    case Compound(ss) => SimplesText(ss)
    case OtherNode(t) => t
  }

  function SimplesText(ss: seq<Simple>): string
    decreases ss
  {
    if ss == [] then [] else SimpleText(ss[0]) + SimplesText(ss[1..])
  }

  function SimpleText(s: Simple): string
    decreases s
  {
    match s
    case PseudoClass(name) => ":" + name
    case Negation(args) => ":not(" + ArgsText(args) + ")"
    case OtherSimple(t) => t
  }

  function ArgsText(args: seq<Selector>): string
    decreases args
  {
    if args == [] then []
    else if |args| == 1 then Text(args[0])
    else Text(args[0]) + ", " + ArgsText(args[1..])
  }

  // ---------------------------------------------------------------------
  // `_strip_interactive_pseudos_from_tree`.

  /** Both sides of a combined selector are stripped and its combinator
      is kept; a compound selector loses its interactive pseudo-classes;
      any other node is returned as it is. */
  function Strip(n: Selector): Selector
    decreases n
  {
    match n
    case Combined(l, c, r) => Combined(Strip(l), c, Strip(r))
    case Compound(ss) => Compound(StripSimples(ss))
    case OtherNode(_) => n
  }

  /** The loop over a compound selector's simple selectors. */
  function StripSimples(ss: seq<Simple>): seq<Simple>
    decreases ss
  {
    if ss == [] then [] else StripSimple(ss[0]) + StripSimples(ss[1..])
  }

  /** What one simple selector leaves: nothing for an interactive
      pseudo-class; for `:not(...)` the stripped arguments whose text is
      not blank, or nothing if none is left; otherwise itself. */
  function StripSimple(s: Simple): seq<Simple>
    decreases s
  {
    match s
    case PseudoClass(name) => if name in INTERACTIVE_PSEUDO_CLASSES then [] else [s]
    case Negation(args) =>
      var kept := StripArgs(args);
      if kept == [] then [] else [Negation(kept)]
    case OtherSimple(_) => [s]
  }

  /** The loop over the arguments of `:not(...)`. */
  function StripArgs(args: seq<Selector>): seq<Selector>
    decreases args
  {
    if args == [] then []
    else
      var n := Strip(args[0]);
      (if !AllSpace(Text(n)) then [n] else []) + StripArgs(args[1..])
  }

  // ---------------------------------------------------------------------
  // No interactive pseudo-class is left.

  predicate NoInteractive(n: Selector)
    decreases n
  {
    match n
    case Combined(l, _, r) => NoInteractive(l) && NoInteractive(r)
    case Compound(ss) => forall i :: 0 <= i < |ss| ==> SimpleNoInteractive(ss[i])
    case OtherNode(_) => true
  }

  predicate SimpleNoInteractive(s: Simple)
    decreases s
  {
    match s
    case PseudoClass(name) => name !in INTERACTIVE_PSEUDO_CLASSES
    case Negation(args) => forall i :: 0 <= i < |args| ==> NoInteractive(args[i])
    case OtherSimple(_) => true
  }

  /** After stripping, no compound selector, including those inside
      `:not(...)`, holds an interactive pseudo-class. */
  lemma {:induction false} StripNoInteractive(n: Selector)
    ensures NoInteractive(Strip(n))
    decreases n
  {
    match n
    case Combined(l, c, r) =>
      StripNoInteractive(l);
      StripNoInteractive(r);
    case Compound(ss) =>
      StripSimplesNoInteractive(ss);
    case OtherNode(_) =>
  }

  lemma {:induction false} StripSimplesNoInteractive(ss: seq<Simple>)
    ensures forall i :: 0 <= i < |StripSimples(ss)| ==> SimpleNoInteractive(StripSimples(ss)[i])
    decreases ss
  {
    if ss != [] {
      StripSimpleNoInteractive(ss[0]);
      StripSimplesNoInteractive(ss[1..]);
      var a, b := StripSimple(ss[0]), StripSimples(ss[1..]);
      assert forall i :: |a| <= i < |a + b| ==> (a + b)[i] == b[i - |a|];
    }
  }

  lemma {:induction false} StripSimpleNoInteractive(s: Simple)
    ensures forall i :: 0 <= i < |StripSimple(s)| ==> SimpleNoInteractive(StripSimple(s)[i])
    decreases s
  {
    match s
    case PseudoClass(_) =>
    case Negation(args) =>
      StripArgsNoInteractive(args);
    case OtherSimple(_) =>
  }

  lemma {:induction false} StripArgsNoInteractive(args: seq<Selector>)
    ensures forall i :: 0 <= i < |StripArgs(args)| ==> NoInteractive(StripArgs(args)[i])
    decreases args
  {
    if args != [] {
      StripNoInteractive(args[0]);
      StripArgsNoInteractive(args[1..]);
      var n := Strip(args[0]);
      var a, b := (if !AllSpace(Text(n)) then [n] else []), StripArgs(args[1..]);
      assert StripArgs(args) == a + b;
      forall i | 0 <= i < |a + b| ensures NoInteractive((a + b)[i]) {
        if i < |a| {
          assert (a + b)[i] == n;
        } else {
          assert (a + b)[i] == b[i - |a|];
        }
      }
    }
  }

  // ---------------------------------------------------------------------
  // Stripping is idempotent.

  lemma {:induction false} StripSimplesAppend(a: seq<Simple>, b: seq<Simple>)
    ensures StripSimples(a + b) == StripSimples(a) + StripSimples(b)
    decreases |a|
  {
    if a == [] {
      assert a + b == b;
    } else {
      assert (a + b)[0] == a[0] && (a + b)[1..] == a[1..] + b;
      StripSimplesAppend(a[1..], b);
    }
  }

  lemma {:induction false} StripArgsAppend(a: seq<Selector>, b: seq<Selector>)
    ensures StripArgs(a + b) == StripArgs(a) + StripArgs(b)
    decreases |a|
  {
    if a == [] {
      assert a + b == b;
    } else {
      assert (a + b)[0] == a[0] && (a + b)[1..] == a[1..] + b;
      StripArgsAppend(a[1..], b);
      var n := Strip(a[0]);
      var head := if !AllSpace(Text(n)) then [n] else [];
      assert StripArgs(a + b) == head + StripArgs(a[1..] + b);
      assert StripArgs(a) == head + StripArgs(a[1..]);
    }
  }

  /** Stripping twice is stripping once. */
  lemma {:induction false} StripIdempotent(n: Selector)
    ensures Strip(Strip(n)) == Strip(n)
    decreases n
  {
    match n
    case Combined(l, c, r) =>
      StripIdempotent(l);
      StripIdempotent(r);
    case Compound(ss) =>
      StripSimplesIdempotent(ss);
    case OtherNode(_) =>
  }

  lemma {:induction false} StripSimplesIdempotent(ss: seq<Simple>)
    ensures StripSimples(StripSimples(ss)) == StripSimples(ss)
    decreases ss
  {
    if ss != [] {
      StripSimpleIdempotent(ss[0]);
      StripSimplesIdempotent(ss[1..]);
      StripSimplesAppend(StripSimple(ss[0]), StripSimples(ss[1..]));
    }
  }

  lemma {:induction false} StripSimpleIdempotent(s: Simple)
    ensures StripSimples(StripSimple(s)) == StripSimple(s)
    decreases s
  {
    match s
    case PseudoClass(name) =>
      if name !in INTERACTIVE_PSEUDO_CLASSES {
        assert StripSimples([s]) == StripSimple(s) + StripSimples([]);
      }
    case Negation(args) =>
      var kept := StripArgs(args);
      if kept != [] {
        StripArgsIdempotent(args);
        var t := Negation(kept);
        assert StripSimple(t) == [t];
        assert StripSimples([t]) == StripSimple(t) + StripSimples([]);
      }
    case OtherSimple(_) =>
      assert StripSimples([s]) == StripSimple(s) + StripSimples([]);
  }

  lemma {:induction false} StripArgsIdempotent(args: seq<Selector>)
    ensures StripArgs(StripArgs(args)) == StripArgs(args)
    decreases args
  {
    if args != [] {
      var n := Strip(args[0]);
      StripIdempotent(args[0]);
      StripArgsIdempotent(args[1..]);
      var head := if !AllSpace(Text(n)) then [n] else [];
      StripArgsAppend(head, StripArgs(args[1..]));
      if head != [] {
        assert StripArgs(head) == head + StripArgs([]);
      }
    }
  }

  // ---------------------------------------------------------------------
  // What is kept.

  /** The combinators of a tree, left to right. */
  function Combinators(n: Selector): seq<string>
    decreases n
  {
    match n
    case Combined(l, c, r) => Combinators(l) + [c] + Combinators(r)
    case Compound(_) => []
    case OtherNode(_) => []
  }

  /** Stripping keeps every combinator, in order, and the tree's shape of
      combined selectors. */
  lemma {:induction false} StripKeepsCombinators(n: Selector)
    ensures Combinators(Strip(n)) == Combinators(n)
    ensures n.Combined? <==> Strip(n).Combined?
    ensures n.Compound? <==> Strip(n).Compound?
    decreases n
  {
    match n
    case Combined(l, c, r) =>
      StripKeepsCombinators(l);
      StripKeepsCombinators(r);
    case Compound(_) =>
    case OtherNode(_) =>
  }

  predicate NotInteractive(s: Simple) {
    !Interactive(s)
  }

  function Id(s: Simple): Simple {
    s
  }

  /** In a compound selector without `:not(...)`, stripping keeps exactly
      the simple selectors that are not interactive pseudo-classes, in
      their order. */
  lemma {:induction false} StripPlainCompound(ss: seq<Simple>, n: nat)
    requires n <= |ss|
    requires forall i :: 0 <= i < |ss| ==> !ss[i].Negation?
    ensures StripSimples(ss[..n]) == FilterMap(ss, n, NotInteractive, Id)
  {
    if n == 0 {
      assert ss[..n] == [];
    } else {
      StripPlainCompound(ss, n - 1);
      assert ss[..n] == ss[..n - 1] + [ss[n - 1]];
      StripSimplesAppend(ss[..n - 1], [ss[n - 1]]);
      assert StripSimples([ss[n - 1]]) == StripSimple(ss[n - 1]) + StripSimples([]);
    }
  }

  /** A `:not(...)` is dropped exactly when every argument strips to blank
      text. */
  lemma {:induction false} StripArgsEmpty(args: seq<Selector>)
    ensures StripArgs(args) == [] <==> forall i :: 0 <= i < |args| ==> AllSpace(Text(Strip(args[i])))
    decreases args
  {
    if args != [] {
      StripArgsEmpty(args[1..]);
      var n := Strip(args[0]);
      var head := if !AllSpace(Text(n)) then [n] else [];
      assert StripArgs(args) == head + StripArgs(args[1..]);
      AllBlankCons(args);
    }
  }

  predicate AllBlank(args: seq<Selector>) {
    forall i :: 0 <= i < |args| ==> AllSpace(Text(Strip(args[i])))
  }

  lemma AllBlankCons(args: seq<Selector>)
    requires args != []
    ensures AllBlank(args) <==> AllSpace(Text(Strip(args[0]))) && AllBlank(args[1..])
  {
    assert forall i :: 1 <= i < |args| ==> args[i] == args[1..][i - 1];
  }

  /** The arguments kept are the stripped arguments with non-blank text. */
  lemma {:induction false} StripArgsMembers(args: seq<Selector>, x: Selector)
    ensures x in StripArgs(args) <==> exists i :: 0 <= i < |args| && x == Strip(args[i]) && !AllSpace(Text(x))
    decreases args
  {
    if args != [] {
      StripArgsMembers(args[1..], x);
      var n := Strip(args[0]);
      var head := if !AllSpace(Text(n)) then [n] else [];
      assert StripArgs(args) == head + StripArgs(args[1..]);
      if x in StripArgs(args[1..]) {
        var i :| 0 <= i < |args[1..]| && x == Strip(args[1..][i]) && !AllSpace(Text(x));
        assert args[i + 1] == args[1..][i];
      }
      if exists i :: 0 <= i < |args| && x == Strip(args[i]) && !AllSpace(Text(x)) {
        var i :| 0 <= i < |args| && x == Strip(args[i]) && !AllSpace(Text(x));
        if i > 0 {
          assert args[1..][i - 1] == args[i];
        }
      }
    }
  }

  /** An interactive pseudo-class alone strips to nothing, in a compound
      selector and as the argument of `:not(...)`. */
  lemma InteractiveAloneDropped(name: string)
    requires name in INTERACTIVE_PSEUDO_CLASSES
    ensures StripSimples([PseudoClass(name)]) == []
    ensures StripArgs([Compound([PseudoClass(name)])]) == []
  {
    var only := [PseudoClass(name)];
    assert only[1..] == [];
    assert Text(Compound([])) == [];
    var neg := [Compound(only)];
    assert neg[1..] == [];
  }

  /** A plain simple selector stays. */
  lemma PlainKept(s: Simple, rest: seq<Simple>)
    requires s.OtherSimple?
    ensures StripSimples([s] + rest) == [s] + StripSimples(rest)
  {
    assert ([s] + rest)[0] == s && ([s] + rest)[1..] == rest;
  }

  /** `a:not(:hover)` is matched as `a`, and so is `a:hover`; the same
      for every interactive pseudo-class. */
  lemma NotInteractiveDropped(a: Simple, name: string)
    requires a.OtherSimple? && name in INTERACTIVE_PSEUDO_CLASSES
    ensures Strip(Compound([a, Negation([Compound([PseudoClass(name)])])])) == Compound([a])
    ensures Strip(Compound([a, PseudoClass(name)])) == Compound([a])
  {
    InteractiveAloneDropped(name);
    var neg := Negation([Compound([PseudoClass(name)])]);
    assert StripSimples([neg]) == [] by {
      assert [neg][1..] == [];
    }
    PlainKept(a, [neg]);
    assert [a, neg] == [a] + [neg];
    PlainKept(a, [PseudoClass(name)]);
    assert [a, PseudoClass(name)] == [a] + [PseudoClass(name)];
  }

  // ---------------------------------------------------------------------
  // `_normalize_selector_text`.

  /** Each run of whitespace becomes one space. */
  function Collapse(s: string): string
    decreases |s|
  {
    if s == [] then []
    else if IsSpace(s[0]) then
      var rest := TrimLeft(s);
      " " + Collapse(rest)
    else [s[0]] + Collapse(s[1..])
  }

  /** `re.sub(r"\s+", " ", s.strip())`. */
  function NormalizeSelectorText(s: string): string {
    Collapse(Trim(s))
  }

  /** Whitespace is single spaces, never two in a row. */
  predicate SingleSpaced(r: string) {
    forall i :: 0 <= i < |r| && IsSpace(r[i]) ==> r[i] == ' ' && (i + 1 < |r| ==> !IsSpace(r[i + 1]))
  }

  /** The characters that are not whitespace, in order. */
  function Squeeze(s: string): string
    decreases |s|
  {
    if s == [] then [] else (if IsSpace(s[0]) then [] else [s[0]]) + Squeeze(s[1..])
  }

  lemma {:induction false} CollapseEnds(s: string)
    ensures s != [] && !IsSpace(s[0]) ==> Collapse(s) != [] && Collapse(s)[0] == s[0]
    ensures s != [] && !IsSpace(s[|s| - 1]) ==> Collapse(s) != [] && Collapse(s)[|Collapse(s)| - 1] == s[|s| - 1]
    ensures s == [] <==> Collapse(s) == []
    decreases |s|
  {
    if s != [] {
      if IsSpace(s[0]) {
        var rest := TrimLeft(s);
        CollapseEnds(rest);
        if !IsSpace(s[|s| - 1]) {
          TrimLeftDropsSpaces(s);
          assert rest != [] && rest[|rest| - 1] == s[|s| - 1];
        }
      } else {
        CollapseEnds(s[1..]);
      }
    }
  }

  lemma {:induction false} CollapseSingleSpaced(s: string)
    ensures SingleSpaced(Collapse(s))
    decreases |s|
  {
    if s != [] {
      if IsSpace(s[0]) {
        var rest := TrimLeft(s);
        CollapseSingleSpaced(rest);
        CollapseEnds(rest);
        var c := Collapse(rest);
        assert forall i :: 1 <= i < |" " + c| ==> (" " + c)[i] == c[i - 1];
      } else {
        CollapseSingleSpaced(s[1..]);
        var c := Collapse(s[1..]);
        assert forall i :: 1 <= i < |[s[0]] + c| ==> ([s[0]] + c)[i] == c[i - 1];
      }
    }
  }

  lemma {:induction false} CollapseOfSingleSpaced(s: string)
    requires SingleSpaced(s)
    ensures Collapse(s) == s
    decreases |s|
  {
    if s != [] {
      SingleSpacedTail(s);
      CollapseOfSingleSpaced(s[1..]);
      if IsSpace(s[0]) {
        CollapseSpaceHead(s);
      } else {
        assert s == [s[0]] + s[1..];
      }
    }
  }

  /** A single space followed by a collapsed rest is collapsed. */
  lemma CollapseSpaceHead(s: string)
    requires s != [] && IsSpace(s[0]) && SingleSpaced(s) && Collapse(s[1..]) == s[1..]
    ensures Collapse(s) == s
  {
    var t := s[1..];
    assert s[0] == ' ' && (t == [] || !IsSpace(t[0])) by {
      if t != [] {
        assert t[0] == s[1];
      }
    }
    TrimLeftStep(s);
    TrimLeftStep(t);
    assert s == " " + t;
  }

  lemma SingleSpacedTail(s: string)
    requires s != [] && SingleSpaced(s)
    ensures SingleSpaced(s[1..])
  {
    forall i | 0 <= i < |s[1..]| && IsSpace(s[1..][i])
      ensures s[1..][i] == ' ' && (i + 1 < |s[1..]| ==> !IsSpace(s[1..][i + 1]))
    {
      assert s[1..][i] == s[i + 1];
    }
  }

  lemma {:induction false} SqueezeAppend(a: string, b: string)
    ensures Squeeze(a + b) == Squeeze(a) + Squeeze(b)
    decreases |a|
  {
    if a == [] {
      assert a + b == b;
    } else {
      assert (a + b)[0] == a[0] && (a + b)[1..] == a[1..] + b;
      SqueezeAppend(a[1..], b);
    }
  }

  lemma {:induction false} SqueezeTrimLeft(s: string)
    ensures Squeeze(TrimLeft(s)) == Squeeze(s)
    decreases |s|
  {
    TrimLeftStep(s);
    if |s| > 0 && IsSpace(s[0]) {
      SqueezeTrimLeft(s[1..]);
    }
  }

  lemma {:induction false} SqueezeTrimRight(s: string)
    ensures Squeeze(TrimRight(s)) == Squeeze(s)
    decreases |s|
  {
    TrimRightStep(s);
    if |s| > 0 && IsSpace(s[|s| - 1]) {
      var n := |s| - 1;
      SqueezeTrimRight(s[..n]);
      assert s == s[..n] + [s[n]];
      SqueezeAppend(s[..n], [s[n]]);
      assert Squeeze([s[n]]) == [] + Squeeze([]);
    }
  }

  lemma {:induction false} SqueezeCollapse(s: string)
    ensures Squeeze(Collapse(s)) == Squeeze(s)
    decreases |s|
  {
    if s != [] {
      if IsSpace(s[0]) {
        var rest := TrimLeft(s);
        SqueezeCollapse(rest);
        SqueezeTrimLeft(s);
        assert (" " + Collapse(rest))[1..] == Collapse(rest);
      } else {
        SqueezeCollapse(s[1..]);
        assert ([s[0]] + Collapse(s[1..]))[1..] == Collapse(s[1..]);
      }
    }
  }

  /** The normalised text has no whitespace at its ends and no run of
      whitespace, changes nothing but whitespace, and normalising it
      again changes nothing. */
  lemma NormalizeSelectorTextSpec(s: string)
    ensures NoSpaceAtEnds(NormalizeSelectorText(s))
    ensures SingleSpaced(NormalizeSelectorText(s))
    ensures Squeeze(NormalizeSelectorText(s)) == Squeeze(s)
    ensures NormalizeSelectorText(NormalizeSelectorText(s)) == NormalizeSelectorText(s)
    ensures NormalizeSelectorText(s) == [] <==> Trim(s) == []
  {
    var t := Trim(s);
    var r := Collapse(t);
    CollapseEnds(t);
    CollapseSingleSpaced(t);
    SqueezeCollapse(t);
    SqueezeTrimLeft(s);
    SqueezeTrimRight(TrimLeft(s));
    TrimOfTrimmed(r);
    CollapseOfSingleSpaced(r);
  }
}
