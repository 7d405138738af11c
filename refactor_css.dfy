/** `scripts/refactor_roam_css.py`: rebuilds roam.css so that rules whose
    selector also appears in the reference system stylesheet take the
    system's layout declarations, while keeping roam's own colours and fonts.
    Stylesheets are strings; a declarations dict is an insertion-ordered
    `Dict<string>`; the system layout map is a `Dict<Dict<string>>`. */
module RefactorCss {
  import opened Wrappers
  import opened Strings
  import opened OrderedDict

  // ---------------------------------------------------------------------
  // Colour and font properties.

  /** Properties never taken from the system stylesheet. */
  const SKIP_FROM_SYSTEM: set<string> := {
    "color", "background", "background-color", "font-family", "font-weight",
    "fill", "stroke", "opacity", "box-shadow", "text-shadow",
    "border-color", "outline-color", "caret-color"
  }

  /** `is_color_or_font`: decided on the stripped, lower-cased name. */
  predicate IsColorOrFont(prop: string) {
    var p := Lower(Trim(prop));
    p in SKIP_FROM_SYSTEM || Contains(p, "color") || Contains(p, "font-") || p == "font"
  }

  /** Surrounding whitespace and letter case never change the verdict. */
  lemma IsColorOrFontNormalised(prop: string)
    ensures IsColorOrFont(Trim(prop)) == IsColorOrFont(prop)
    ensures IsColorOrFont(Lower(prop)) == IsColorOrFont(prop)
  {
    TrimNormalised(prop);
    LowerNormalised(prop);
  }

  lemma TrimNormalised(prop: string)
    ensures IsColorOrFont(Trim(prop)) == IsColorOrFont(prop)
  {
    TrimIdempotent(prop);
    SameKey(Trim(prop), prop);
  }

  lemma LowerNormalised(prop: string)
    ensures IsColorOrFont(Lower(prop)) == IsColorOrFont(prop)
  {
    TrimLower(prop);
    LowerIdempotent(Trim(prop));
    SameKey(Lower(prop), prop);
  }

  lemma SameKey(a: string, b: string)
    requires Lower(Trim(a)) == Lower(Trim(b))
    ensures IsColorOrFont(a) == IsColorOrFont(b)
  {
  }

  // ---------------------------------------------------------------------
  // Selector normalisation.

  /** `w[j..]` occurs in `s` at position `i`. Index arithmetic only, so
      that unfolding it produces no sequence slices. */
  predicate MatchesAt(s: string, i: nat, w: string, j: nat)
    decreases |w| - j
  {
    if j >= |w| then i <= |s|
    else i < |s| && s[i] == w[j] && MatchesAt(s, i + 1, w, j + 1)
  }

  lemma {:induction false} MatchesAtIff(s: string, i: nat, w: string, j: nat)
    requires j <= |w|
    ensures MatchesAt(s, i, w, j) <==> i + (|w| - j) <= |s| && s[i..i + (|w| - j)] == w[j..]
    decreases |w| - j
  {
    if j < |w| {
      MatchesAtIff(s, i + 1, w, j + 1);
      if i < |s| && i + (|w| - j) <= |s| {
        assert s[i..i + (|w| - j)] == [s[i]] + s[i + 1..i + (|w| - j)];
        assert w[j..] == [w[j]] + w[j + 1..];
      }
    }
  }

  /** At position 0 this is `s.startswith(w)`. */
  lemma MatchesStartIff(s: string, w: string)
    ensures MatchesAt(s, 0, w, 0) <==> StartsWith(s, w)
  {
    MatchesAtIff(s, 0, w, 0);
    assert w[0..] == w;
    if |w| <= |s| {
      assert s[0..|w|] == s[..|w|];
    }
  }

  lemma {:induction false} MatchesAfter(pre: string, w: string, rest: string, j: nat)
    requires j <= |w|
    ensures MatchesAt(pre + w + rest, |pre| + j, w, j)
    decreases |w| - j
  {
    if j < |w| {
      MatchesAfter(pre, w, rest, j + 1);
      assert (pre + w + rest)[|pre| + j] == w[j];
    }
  }

  lemma {:induction false} MatchesAtMismatch(s: string, i: nat, w: string, j: nat, k: nat)
    requires j <= k < |w| && i + (k - j) < |s| && s[i + (k - j)] != w[k]
    ensures !MatchesAt(s, i, w, j)
    decreases k - j
  {
    if j < k {
      MatchesAtMismatch(s, i + 1, w, j + 1, k);
    }
  }

  /** Python's `w in s[i:]`. */
  predicate ContainsFrom(s: string, i: nat, w: string)
    decreases |s| - i
  {
    MatchesAt(s, i, w, 0) || (i < |s| && ContainsFrom(s, i + 1, w))
  }

  lemma {:induction false} ContainsFromIff(s: string, i: nat, w: string)
    requires i <= |s|
    ensures ContainsFrom(s, i, w) <==> Contains(s[i..], w)
    decreases |s| - i
  {
    MatchesStartIff(s[i..], w);
    MatchesAtIff(s, i, w, 0);
    MatchesAtIff(s[i..], 0, w, 0);
    if |w| <= |s| - i {
      assert s[i..][0..|w|] == s[i..i + |w|];
    }
    if i < |s| {
      ContainsFromIff(s, i + 1, w);
      assert s[i..][1..] == s[i + 1..];
    }
  }

  /** How many characters `w\s+` matches at position `i` of `s` (0: no
      match). */
  function WordSpacesAt(s: string, i: nat, w: string): (n: nat)
    ensures n > 0 ==> i + n <= |s| && (i + n == |s| || !IsSpace(s[i + n]))
  {
    if MatchesAt(s, i, w, 0) && i + |w| < |s| && IsSpace(s[i + |w|]) then |w| + SpacesFrom(s, i + |w|)
    else 0
  }

  lemma WordThenSpace(pre: string, w: string, rest: string)
    requires rest != [] && !IsSpace(rest[0])
    ensures WordSpacesAt(pre + w + " " + rest, |pre|, w) == |w| + 1
  {
    var s := pre + w + " " + rest;
    assert s == pre + w + (" " + rest);
    MatchesAfter(pre, w, " " + rest, 0);
    assert s[|pre| + |w|] == ' ';
    assert s[|pre| + |w| + 1] == rest[0];
    assert SpacesFrom(s, |pre| + |w| + 1) == 0;
  }

  /** What the first step of `normalize_selector` removes from the stripped
      selector: `re.sub(r"^\.roam-body\s+\.roam-app\s+", "", s)`, run only
      when ".roam-body .roam-app " occurs in it or it starts with
      ".roam-body .roam-app". */
  function BodyAppCount(s: string): (n: nat)
    ensures n <= |s|
    ensures n > 0 ==> (n == |s| || !IsSpace(s[n]))
  {
    if ContainsFrom(s, 0, ".roam-body .roam-app ") || MatchesAt(s, 0, ".roam-body .roam-app", 0) then
      var n1 := WordSpacesAt(s, 0, ".roam-body");
      var n2 := if n1 == 0 then 0 else WordSpacesAt(s, n1, ".roam-app");
      if n2 == 0 then 0 else n1 + n2
    else 0
  }

  /** What the second step removes from what the first left, which starts
      at position `i`: `re.sub(r"^\.roam-app\s+", "", s)`, run only when
      ".roam-app " occurs in it or it starts with ".roam-app ". */
  function AppCountAt(s: string, i: nat): (n: nat)
    requires i <= |s|
    ensures i + n <= |s|
    ensures n > 0 ==> (i + n == |s| || !IsSpace(s[i + n]))
  {
    if ContainsFrom(s, i, ".roam-app ") || MatchesAt(s, i, ".roam-app ", 0) then WordSpacesAt(s, i, ".roam-app")
    else 0
  }

  /** `normalize_selector`: the stripped selector, less a leading
      ".roam-body .roam-app " and, when `prefixRoamApp`, a leading
      ".roam-app ". Each removal is guarded by the substring tests the
      source performs before calling `re.sub`. */
  function NormalizeSelector(sel: string, prefixRoamApp: bool): string {
    NormalizeStripped(Trim(sel), prefixRoamApp)
  }

  /** The result is a suffix of the stripped selector, with no whitespace
      at its ends. */
  lemma NormalizeSelectorSpec(sel: string, prefixRoamApp: bool)
    ensures var t, r := Trim(sel), NormalizeSelector(sel, prefixRoamApp);
      |r| <= |t| && r == t[|t| - |r|..] && NoSpaceAtEnds(r)
  {
    var t := Trim(sel);
    assert NoSpaceAtEnds(t);
    var r := NormalizeStripped(t, prefixRoamApp);
    assert NormalizeSelector(sel, prefixRoamApp) == r;
  }

  /** The two removals on a selector already stripped. */
  function NormalizeStripped(t: string, prefixRoamApp: bool): (r: string)
    ensures |r| <= |t| && r == t[|t| - |r|..]
    ensures NoSpaceAtEnds(t) ==> NoSpaceAtEnds(r)
  {
    var n1 := BodyAppCount(t);
    var n2 := if prefixRoamApp then AppCountAt(t, n1) else 0;
    t[n1 + n2..]
  }

  /** Only a selector that begins with one of the two prefixes changes. */
  lemma NormalizeSelectorKeepsOthers(sel: string, prefixRoamApp: bool)
    requires !StartsWith(Trim(sel), ".roam-body") && !StartsWith(Trim(sel), ".roam-app")
    ensures NormalizeSelector(sel, prefixRoamApp) == Trim(sel)
  {
    var t := Trim(sel);
    MatchesStartIff(t, ".roam-body");
    MatchesStartIff(t, ".roam-app");
    assert BodyAppCount(t) == 0;
    assert AppCountAt(t, 0) == 0;
    assert t[0..] == t;
  }

  /** A system selector ".roam-body .roam-app X" is keyed by X. */
  lemma NormalizeSystemForm(b: string)
    requires b != [] && NoSpaceAtEnds(b)
    ensures NormalizeSelector(".roam-body .roam-app " + b, false) == b
  {
    var s := ".roam-body .roam-app " + b;
    assert NoSpaceAtEnds(s) by {
      assert s[0] == '.' && s[|s| - 1] == b[|b| - 1];
    }
    NormalizeOfStripped(s, false);
    BodyAppDropped(b);
    assert s[21..] == b;
  }

  /** A selector with no whitespace at its ends is not changed by `strip`. */
  lemma NormalizeOfStripped(t: string, prefixRoamApp: bool)
    requires NoSpaceAtEnds(t)
    ensures NormalizeSelector(t, prefixRoamApp) == NormalizeStripped(t, prefixRoamApp)
  {
    TrimOfTrimmed(t);
  }

  lemma BodyAppDropped(b: string)
    requires b != [] && !IsSpace(b[0])
    ensures BodyAppCount(".roam-body .roam-app " + b) == 21
  {
    var s := ".roam-body .roam-app " + b;
    BodyAppSplits(b);
    MatchesAfter([], ".roam-body .roam-app ", b, 0);
    assert ContainsFrom(s, 0, ".roam-body .roam-app ");
    WordThenSpace([], ".roam-body", ".roam-app " + b);
    WordThenSpace(".roam-body ", ".roam-app", b);
  }

  /** The ways ".roam-body .roam-app " + b splits into its words. */
  lemma BodyAppSplits(b: string)
    ensures [] + ".roam-body .roam-app " + b == ".roam-body .roam-app " + b
    ensures [] + ".roam-body" + " " + (".roam-app " + b) == ".roam-body .roam-app " + b
    ensures ".roam-body " + ".roam-app" + " " + b == ".roam-body .roam-app " + b
  {
    assert ".roam-body" + " " + ".roam-app " == ".roam-body .roam-app ";
    assert ".roam-body " + ".roam-app" + " " == ".roam-body .roam-app ";
  }

  /** A roam selector ".roam-app X" is keyed by X when `prefixRoamApp` is
      set, and is left whole otherwise. */
  lemma NormalizeRoamForm(b: string)
    requires b != [] && NoSpaceAtEnds(b)
    ensures NormalizeSelector(".roam-app " + b, true) == b
    ensures NormalizeSelector(".roam-app " + b, false) == ".roam-app " + b
  {
    var s := ".roam-app " + b;
    assert NoSpaceAtEnds(s) by {
      assert s[0] == '.' && s[|s| - 1] == b[|b| - 1];
    }
    NormalizeOfStripped(s, true);
    NormalizeOfStripped(s, false);
    RoamFormKeepsBody(b);
    assert s[0..] == s;
    AppDropped(b);
    assert s[10..] == b;
  }

  lemma RoamFormKeepsBody(b: string)
    ensures BodyAppCount(".roam-app " + b) == 0
  {
    var s := ".roam-app " + b;
    assert s[6] == 'a';
    MatchesAtMismatch(s, 0, ".roam-body", 0, 6);
  }

  lemma AppDropped(b: string)
    requires b != [] && !IsSpace(b[0])
    ensures AppCountAt(".roam-app " + b, 0) == 10
  {
    var s := ".roam-app " + b;
    MatchesAfter([], ".roam-app ", b, 0);
    assert [] + ".roam-app " + b == s;
    WordThenSpace([], ".roam-app", b);
    assert [] + ".roam-app" + " " + b == s;
  }

  // ---------------------------------------------------------------------
  // Comment removal and rule parsing.

  // The non-greedy comment-removing `re.sub` of `parse_css_rules`: each
  // comment, from the leftmost opening "/*" to the first closing "*/" after
  // it, is removed. An unterminated "/*" and everything after it are kept.
  function RemoveComments(s: string): (r: string)
    ensures |r| <= |s|
    ensures !Contains(s, "/*") ==> r == s
    decreases |s|
  {
    if |s| < 2 then s
    else if s[..2] == "/*" then
      var e := FindSub(s[2..], "*/");
      if e < 0 then s else RemoveComments(s[2 + e + 2..])
    else [s[0]] + RemoveComments(s[1..])
  }

  lemma {:induction false} FindCloseAfter(c: string, b: string)
    requires !Contains(c, "*/")
    ensures FindSub(c + "*/" + b, "*/") == |c|
    decreases |c|
  {
    var t := c + "*/" + b;
    if c == [] {
      assert t == "*/" + b;
      StartsWithSelf("*/", b);
    } else {
      assert t[..2] == [t[0], t[1]];
      assert t[0] == c[0];
      assert |c| >= 2 ==> c[..2] == [c[0], c[1]] && t[1] == c[1];
      assert |c| == 1 ==> t[1] == '*';
      assert t[1..] == c[1..] + "*/" + b;
      FindCloseAfter(c[1..], b);
    }
  }

  lemma RemoveCommentsStep(s: string)
    requires |s| >= 2 && s[..2] != "/*"
    ensures RemoveComments(s) == [s[0]] + RemoveComments(s[1..])
  {
  }

  lemma RemoveCommentsStepAt(s: string, u: string)
    requires |s| >= 2 && s[..2] != "/*" && u == s[1..]
    ensures RemoveComments(s) == [s[0]] + RemoveComments(u)
  {
    RemoveCommentsStep(s);
  }

  lemma RemoveLeadingComment(c: string, b: string)
    requires !Contains(c, "*/")
    ensures RemoveComments("/*" + c + "*/" + b) == RemoveComments(b)
  {
    var s := "/*" + c + "*/" + b;
    assert s[..2] == "/*";
    assert s[2..] == c + "*/" + b;
    FindCloseAfter(c, b);
    assert s[2 + |c| + 2..] == b;
  }

  // No opening "/*" anywhere in `a`, position by position.
  predicate NoOpen(a: string) {
    forall j :: 0 <= j < |a| - 1 ==> !(a[j] == '/' && a[j + 1] == '*')
  }

  lemma NoOpenJoin(a: string, t: string)
    requires NoOpen(a) && (t == [] || t[0] != '*') && a != [] && |a + t| >= 2
    ensures (a + t)[..2] != "/*"
  {
    var s := a + t;
    assert s[1] == if |a| >= 2 then a[1] else t[0];
    assert s[..2][0] == s[0] && s[..2][1] == s[1];
  }

  lemma NoOpenTail(a: string)
    requires NoOpen(a) && a != []
    ensures NoOpen(a[1..])
  {
    var y := a[1..];
    assert forall j :: 0 <= j < |y| ==> y[j] == a[j + 1];
  }

  lemma RemoveCommentsCons(a: string, t: string)
    requires NoOpen(a) && (t == [] || t[0] != '*') && a != [] && |a + t| >= 2
    ensures RemoveComments(a + t) == [a[0]] + RemoveComments(a[1..] + t)
  {
    NoOpenJoin(a, t);
    RemoveCommentsStepAt(a + t, a[1..] + t);
  }

  lemma ConsAppend(a: string, q: string, r: string)
    requires a != [] && q == a[1..] + r
    ensures [a[0]] + q == a + r
  {
  }

  lemma {:induction false} RemoveCommentsKeepsPrefix(a: string, t: string)
    requires NoOpen(a) && (t == [] || t[0] != '*')
    ensures RemoveComments(a + t) == a + RemoveComments(t)
    decreases |a|
  {
    if a == [] {
      assert a + t == t;
    } else if |a + t| < 2 {
      assert a + t == a;
    } else {
      RemoveCommentsCons(a, t);
      NoOpenTail(a);
      RemoveCommentsKeepsPrefix(a[1..], t);
      ConsAppend(a, RemoveComments(a[1..] + t), RemoveComments(t));
    }
  }

  // One comment is removed whole; text before it without an opening "/*"
  // is kept.
  lemma RemoveOneComment(a: string, c: string, b: string)
    requires NoOpen(a) && !Contains(c, "*/")
    ensures RemoveComments(a + "/*" + c + "*/" + b) == a + RemoveComments(b)
  {
    var t := "/*" + c + "*/" + b;
    assert a + "/*" + c + "*/" + b == a + t;
    RemoveCommentsKeepsPrefix(a, t);
    RemoveLeadingComment(c, b);
  }

  /** `parse_css_rules` on one '}'-separated block: skipped when empty,
      an at-rule, or without '{'; otherwise the selector (stripped of
      whitespace, then of commas) and the declarations (stripped), kept only
      when both are non-empty. */
  function ParseBlock(block: string): (r: Option<(string, string)>)
    ensures r.Some? ==> r.value.0 != [] && r.value.1 != []
    ensures r.Some? ==> '{' !in r.value.0 && NoSpaceAtEnds(r.value.1)
    ensures r.Some? ==> r.value.0[0] != ',' && r.value.0[|r.value.0| - 1] != ','
    ensures r.Some? ==> forall x :: x in r.value.0 + r.value.1 ==> x in block
    ensures StartsWith(Trim(block), "@") ==> r.None?
    ensures '{' !in block ==> r.None?
  {
    var b := Trim(block);
    TrimChars(block);
    if b == [] || StartsWith(b, "@") then None
    else if '{' !in b then None
    else
      var (sel0, rest) := PartitionFirst(b, '{');
      var sel := StripChar(Trim(sel0), ',');
      var decls := Trim(rest);
      TrimChars(sel0);
      TrimChars(rest);
      if sel != [] && decls != [] then Some((sel, decls)) else None
  }

  /** The pairs the block loop appends, in order. */
  function ParsedRules(blocks: seq<string>): seq<(string, string)>
    decreases |blocks|
  {
    if blocks == [] then []
    else
      var init := ParsedRules(blocks[..|blocks| - 1]);
      var parsed := ParseBlock(blocks[|blocks| - 1]);
      if parsed.Some? then init + [parsed.value] else init
  }

  /** `parse_css_rules`. */
  method ParseCssRules(content: string) returns (rules: seq<(string, string)>)
    ensures rules == ParsedRules(Split(RemoveComments(content), '}'))
  {
    var noComments := RemoveComments(content);
    var blocks := Split(noComments, '}');
    rules := [];
    var i := 0;
    while i < |blocks|
      invariant 0 <= i <= |blocks|
      invariant rules == ParsedRules(blocks[..i])
    {
      assert blocks[..i + 1][..i] == blocks[..i];
      var parsed := ParseBlock(blocks[i]);
      if parsed.Some? {
        rules := rules + [parsed.value];
      }
      i := i + 1;
    }
    assert blocks[..i] == blocks;
  }

  /** A non-empty selector free of '{', '}' and of commas at its ends,
      and non-empty stripped declarations free of '}'. */
  predicate WellFormedRule(p: (string, string)) {
    p.0 != [] && p.1 != [] && '{' !in p.0 && '}' !in p.0 && '}' !in p.1 &&
    p.0[0] != ',' && p.0[|p.0| - 1] != ',' && NoSpaceAtEnds(p.1)
  }

  lemma ParseBlockWellFormed(block: string)
    requires '}' !in block
    ensures ParseBlock(block).Some? ==> WellFormedRule(ParseBlock(block).value)
  {
    var r := ParseBlock(block);
    if r.Some? {
      assert forall x :: x in r.value.0 ==> x in r.value.0 + r.value.1;
      assert forall x :: x in r.value.1 ==> x in r.value.0 + r.value.1;
    }
  }

  /** Every pair the block loop keeps is well formed. */
  lemma {:induction false} ParsedRulesWellFormed(blocks: seq<string>)
    requires forall i :: 0 <= i < |blocks| ==> '}' !in blocks[i]
    ensures forall k :: 0 <= k < |ParsedRules(blocks)| ==> WellFormedRule(ParsedRules(blocks)[k])
    decreases |blocks|
  {
    if blocks != [] {
      var init := blocks[..|blocks| - 1];
      ParsedRulesWellFormed(init);
      ParseBlockWellFormed(blocks[|blocks| - 1]);
      WellFormedSnoc(ParsedRules(init), ParseBlock(blocks[|blocks| - 1]));
    }
  }

  lemma WellFormedSnoc(init: seq<(string, string)>, parsed: Option<(string, string)>)
    requires forall k :: 0 <= k < |init| ==> WellFormedRule(init[k])
    requires parsed.Some? ==> WellFormedRule(parsed.value)
    ensures var rules := if parsed.Some? then init + [parsed.value] else init;
      forall k :: 0 <= k < |rules| ==> WellFormedRule(rules[k])
  {
  }

  /** The parser's output for any stylesheet text is well formed. */
  lemma ParseCssRulesWellFormed(content: string)
    ensures var rules := ParsedRules(Split(RemoveComments(content), '}'));
      forall k :: 0 <= k < |rules| ==> WellFormedRule(rules[k])
  {
    ParsedRulesWellFormed(Split(RemoveComments(content), '}'));
  }

  // ---------------------------------------------------------------------
  // Declarations strings and dicts.

  /** One `;`-separated part of a declarations string: ignored when blank
      or without ':'; otherwise split at its first ':', both sides stripped. */
  function PartEntry(part: string): (r: Option<Entry<string>>)
    ensures r.Some? ==> ':' !in r.value.key && NoSpaceAtEnds(r.value.key) && NoSpaceAtEnds(r.value.val)
    ensures ':' !in part ==> r.None?
  {
    var p := Trim(part);
    if p == [] || ':' !in p then None
    else
      var kv := PartitionFirst(p, ':');
      Some(Entry(Trim(kv.0), Trim(kv.1)))
  }

  /** Property and value are taken from the part's own characters. */
  lemma PartEntryChars(part: string)
    ensures var r := PartEntry(part);
      r.Some? ==> forall x :: x in r.value.key || x in r.value.val ==> x in part
  {
    var p := Trim(part);
    TrimChars(part);
    if p != [] && ':' in p {
      var kv := PartitionFirst(p, ':');
      TrimChars(kv.0);
      TrimChars(kv.1);
    }
  }

  /** The entries the parts declare, in order. */
  function PartEntries(parts: seq<string>): seq<Entry<string>> {
    Collect(parts, PartEntry)
  }

  /** The dict the part loop builds: each entry put in turn, so that a later
      part overwrites an earlier one with the same property. */
  function DeclsDict(parts: seq<string>): (d: Dict<string>)
    ensures UniqueKeys(d)
  {
    PutAll(PartEntries(parts))
  }

  /** `declarations_to_dict`. */
  method DeclarationsToDict(decls: string) returns (d: Dict<string>)
    ensures d == DeclsDict(Split(decls, ';'))
  {
    var parts := Split(decls, ';');
    d := PutEach(parts, PartEntry);
  }

  /** A property is in the dict exactly when some part declares it; its
      value is the one of the last declaring part (`PutAllLastWins` on
      `PartEntries`). */
  lemma DeclsDictKeys(parts: seq<string>, k: string)
    ensures k in Keys(DeclsDict(parts)) <==> exists i :: Yields(parts, PartEntry, i, k)
  {
    PutAllKeys(PartEntries(parts), k);
    CollectKeys(parts, PartEntry, k);
  }

  /** One `k + ": " + v` piece of `dict_to_declarations`. */
  function DeclPiece(e: Entry<string>): string {
    e.key + ": " + e.val
  }

  lemma PieceHasNoSemicolon(e: Entry<string>)
    requires ';' !in e.key && ';' !in e.val
    ensures ';' !in DeclPiece(e) && ';' !in " " + DeclPiece(e)
  {
  }

  /** `dict_to_declarations`: the pieces joined with "; ". */
  function DictToDeclarations(d: Dict<string>): (r: string)
    ensures r == [] <==> d == []
  {
    Join(seq(|d|, i requires 0 <= i < |d| => DeclPiece(d[i])), "; ")
  }

  /** The dicts `declarations_to_dict` can give back unchanged: properties
      free of ':' and ';', values free of ';', both already stripped. */
  predicate WellFormedDecls(d: Dict<string>) {
    UniqueKeys(d) && AllEntries(d, GoodEntry)
  }

  predicate GoodEntry(e: Entry<string>) {
    ':' !in e.key && ';' !in e.key && NoSpaceAtEnds(e.key) &&
    ';' !in e.val && NoSpaceAtEnds(e.val)
  }

  /** A part whose stripped text is `k + ":" + w` declares `k` with the
      stripped `w`. */
  lemma PartEntryOfStripped(part: string, k: string, w: string)
    requires Trim(part) == k + ":" + w && ':' !in k && NoSpaceAtEnds(k)
    ensures PartEntry(part) == Some(Entry(k, Trim(w)))
  {
    assert k + ":" + w == k + [':'] + w;
    PartitionFirstAt(k, ':', w);
    TrimOfTrimmed(k);
  }

  /** The blank that follows ':' in a piece goes with the value when there
      is one, and is trailing whitespace otherwise. */
  lemma PieceShape(pre: string, k: string, v: string)
    requires pre == [] || pre == " "
    requires NoSpaceAtEnds(k) && NoSpaceAtEnds(v)
    ensures var w: string := if v == [] then [] else " " + v;
      var post: string := if v == [] then " " else [];
      pre + (k + ": " + v) == pre + (k + ":" + w) + post && NoSpaceAtEnds(k + ":" + w) &&
      AllSpace(pre) && AllSpace(post)
  {
    var w: string := if v == [] then [] else " " + v;
    var x := k + ":" + w;
    assert x[0] == if k == [] then ':' else k[0];
    assert x[|x| - 1] == if v == [] then ':' else v[|v| - 1];
  }

  lemma StrippedValue(v: string)
    requires NoSpaceAtEnds(v)
    ensures Trim(if v == [] then [] else " " + v) == v
  {
    if v == [] {
      TrimOfTrimmed(v);
    } else {
      assert " " + v + [] == " " + v;
      TrimSpaces(" ", v, []);
    }
  }

  /** The text of a piece with the blanks around it stripped. */
  lemma PieceStripped(pre: string, e: Entry<string>)
    requires pre == [] || pre == " "
    requires NoSpaceAtEnds(e.key) && NoSpaceAtEnds(e.val)
    ensures var w: string := if e.val == [] then [] else " " + e.val;
      Trim(pre + DeclPiece(e)) == e.key + ":" + w && Trim(w) == e.val
  {
    var k, v := e.key, e.val;
    var w: string := if v == [] then [] else " " + v;
    var post: string := if v == [] then " " else [];
    var x := k + ":" + w;
    assert Trim(pre + DeclPiece(e)) == x by {
      PieceShape(pre, k, v);
      assert pre + DeclPiece(e) == pre + x + post;
      TrimSpaces(pre, x, post);
    }
    assert Trim(w) == v by {
      StrippedValue(v);
    }
  }

  /** A piece, with or without the blank the "; " separator leaves in
      front of it, parses back to its entry. */
  lemma PieceEntry(pre: string, e: Entry<string>)
    requires pre == [] || pre == " "
    requires ':' !in e.key && NoSpaceAtEnds(e.key) && NoSpaceAtEnds(e.val)
    ensures PartEntry(pre + DeclPiece(e)) == Some(e)
  {
    var w: string := if e.val == [] then [] else " " + e.val;
    PieceStripped(pre, e);
    PartEntryOfStripped(pre + DeclPiece(e), e.key, w);
  }

  /** Splitting the joined pieces on ';' gives each piece back, all but
      the first behind the blank of its "; " separator. */
  lemma SplitDeclarations(d: Dict<string>)
    requires d != [] && forall i :: 0 <= i < |d| ==> ';' !in d[i].key && ';' !in d[i].val
    ensures var xs := Split(DictToDeclarations(d), ';');
      |xs| == |d| && forall i :: 0 <= i < |d| ==> xs[i] == (if i == 0 then "" else " ") + DeclPiece(d[i])
  {
    var parts := seq(|d|, i requires 0 <= i < |d| => DeclPiece(d[i]));
    assert "; " == [';'] + " ";
    JoinShift(parts, ';', " ");
    var shifted := [parts[0]] + seq(|parts| - 1, i requires 0 <= i < |parts| - 1 => " " + parts[i + 1]);
    forall i | 0 <= i < |shifted|
      ensures shifted[i] == (if i == 0 then "" else " ") + DeclPiece(d[i]) && ';' !in shifted[i]
    {
      PieceHasNoSemicolon(d[i]);
      if i == 0 {
        assert shifted[i] == parts[0];
      } else {
        assert shifted[i] == " " + parts[i];
      }
    }
    SplitJoin(shifted, ';');
  }

  /** `declarations_to_dict(dict_to_declarations(d)) == d` for every
      well-formed dict, insertion order included. */
  lemma DeclarationsRoundTrip(d: Dict<string>)
    requires WellFormedDecls(d)
    ensures DeclsDict(Split(DictToDeclarations(d), ';')) == d
  {
    if d == [] {
      assert Split([], ';') == [[]];
      assert PartEntries([[]]) == [];
    } else {
      SplitDeclarations(d);
      var xs := Split(DictToDeclarations(d), ';');
      forall i | 0 <= i < |xs| ensures PartEntry(xs[i]) == Some(d[i]) {
        PieceEntry(if i == 0 then "" else " ", d[i]);
      }
      CollectAllSome(xs, PartEntry, d);
      PutAllOfDict(d);
    }
  }

  // ---------------------------------------------------------------------
  // Layout extraction and merging.

  /** `extract_layout_from_system`: the entries whose property is neither a
      colour nor a font one, in their order. */
  function ExtractLayout(d: Dict<string>): (r: Dict<string>)
    ensures |r| <= |d|
  {
    Without(d, IsColorOrFont)
  }

  /** The layout dict holds exactly the non-colour, non-font properties,
      each with its original value. */
  lemma ExtractLayoutSpec(d: Dict<string>, k: string)
    ensures k in Keys(ExtractLayout(d)) <==> k in Keys(d) && !IsColorOrFont(k)
    ensures k in Keys(ExtractLayout(d)) ==> Get(ExtractLayout(d), k) == Get(d, k)
  {
    WithoutSpec(d, IsColorOrFont, k);
  }

  lemma ExtractLayoutUnique(d: Dict<string>)
    requires UniqueKeys(d)
    ensures UniqueKeys(ExtractLayout(d))
  {
    WithoutUnique(d, IsColorOrFont);
  }

  /** A roam property `merge_rule` keeps: a colour or font one, or one the
      system layout does not set. */
  predicate TakesRoam(k: string, sys: Dict<string>) {
    IsColorOrFont(k) || k !in Keys(sys)
  }

  /** The dict `merge_rule` builds: the system layout, then each roam entry
      in turn put when `TakesRoam` holds for it. */
  function Merged(roam: Dict<string>, sys: Dict<string>): Dict<string>
    decreases |roam|
  {
    if roam == [] then sys
    else
      var m := Merged(roam[..|roam| - 1], sys);
      var e := roam[|roam| - 1];
      if TakesRoam(e.key, sys) then Put(m, e.key, e.val) else m
  }

  /** The merged rule sets the properties of both sides; a colour or font
      property, or one the system does not set, has the roam value; every
      other system property keeps the system value. */
  lemma {:induction false} MergedSpec(roam: Dict<string>, sys: Dict<string>, k: string)
    requires UniqueKeys(roam)
    ensures k in Keys(Merged(roam, sys)) <==> k in Keys(sys) || k in Keys(roam)
    ensures k in Keys(roam) && TakesRoam(k, sys) ==> Get(Merged(roam, sys), k) == Get(roam, k)
    ensures k in Keys(sys) && !(k in Keys(roam) && IsColorOrFont(k)) ==> Get(Merged(roam, sys), k) == Get(sys, k)
    decreases |roam|
  {
    if roam != [] {
      var n := |roam| - 1;
      var init := roam[..n];
      var e := roam[n];
      assert Keys(roam) == Keys(init) + [e.key];
      UpdateLast(roam);
      MergedSpec(init, sys, k);
      MergedSpec(init, sys, e.key);
    }
  }

  lemma {:induction false} MergedUnique(roam: Dict<string>, sys: Dict<string>)
    requires UniqueKeys(sys)
    ensures UniqueKeys(Merged(roam, sys))
    decreases |roam|
  {
    if roam != [] {
      MergedUnique(roam[..|roam| - 1], sys);
    }
  }

  /** The loop of `merge_rule`: `out` starts as a copy of the system layout
      and takes the roam entries `TakesRoam` selects, one by one. */
  method MergeDicts(roamD: Dict<string>, sys: Dict<string>) returns (out: Dict<string>)
    ensures out == Merged(roamD, sys)
  {
    out := sys;
    var i := 0;
    while i < |roamD|
      invariant 0 <= i <= |roamD|
      invariant out == Merged(roamD[..i], sys)
    {
      var k, v := roamD[i].key, roamD[i].val;
      assert roamD[..i + 1][..i] == roamD[..i];
      if IsColorOrFont(k) {
        out := Put(out, k, v);
      } else if k !in Keys(sys) {
        out := Put(out, k, v);
      }
      i := i + 1;
    }
    assert roamD[..i] == roamD;
  }

  /** `merge_rule`: parse the roam declarations, merge, print. */
  method MergeRule(roamDecls: string, sys: Dict<string>) returns (merged: string)
    ensures merged == DictToDeclarations(Merged(DeclsDict(Split(roamDecls, ';')), sys))
  {
    var roamD := DeclarationsToDict(roamDecls);
    var out := MergeDicts(roamD, sys);
    merged := DictToDeclarations(out);
  }

  /** Whatever the declarations string, the dict parsed from it is well formed. */
  lemma DeclsDictWellFormed(decls: string)
    ensures WellFormedDecls(DeclsDict(Split(decls, ';')))
  {
    var parts := Split(decls, ';');
    forall i | 0 <= i < |parts| {
      PartEntryChars(parts[i]);
    }
    CollectKeepsAll(parts, PartEntry, GoodEntry);
    PutAllKeepsAll(PartEntries(parts), GoodEntry);
  }

  lemma {:induction false} MergedWellFormed(roam: Dict<string>, sys: Dict<string>)
    requires AllEntries(roam, GoodEntry) && WellFormedDecls(sys)
    ensures WellFormedDecls(Merged(roam, sys))
    decreases |roam|
  {
    MergedUnique(roam, sys);
    if roam != [] {
      var n := |roam| - 1;
      assert AllEntries(roam[..n], GoodEntry);
      MergedWellFormed(roam[..n], sys);
      assert GoodEntry(Entry(roam[n].key, roam[n].val));
      PutKeepsAll(Merged(roam[..n], sys), roam[n].key, roam[n].val, GoodEntry);
    }
  }

  /** Parsing what `merge_rule` prints gives back the merged dict, order
      included, whenever the system layout is well formed. */
  lemma MergeRuleReparses(roamDecls: string, sys: Dict<string>)
    requires WellFormedDecls(sys)
    ensures var m := Merged(DeclsDict(Split(roamDecls, ';')), sys);
      DeclsDict(Split(DictToDeclarations(m), ';')) == m
  {
    DeclsDictWellFormed(roamDecls);
    var m := Merged(DeclsDict(Split(roamDecls, ';')), sys);
    MergedWellFormed(DeclsDict(Split(roamDecls, ';')), sys);
    DeclarationsRoundTrip(m);
  }

  // ---------------------------------------------------------------------
  // The system layout map.

  /** The layout of one system rule: its declarations without colours and fonts. */
  function RuleLayout(decls: string): Dict<string> {
    ExtractLayout(DeclsDict(Split(decls, ';')))
  }

  /** One system rule added to the map: a rule with an empty layout is
      skipped; otherwise its layout updates the dict kept under its
      normalised selector, created empty when missing. */
  function AddSystemRule(m: Dict<Dict<string>>, rule: (string, string)): Dict<Dict<string>> {
    var norm := NormalizeSelector(rule.0, false);
    var layout := RuleLayout(rule.1);
    if layout == [] then m
    else
      var cur := if norm in Keys(m) then Get(m, norm) else [];
      Put(m, norm, Update(cur, layout))
  }

  /** The map the rule loop of `main` builds. */
  function SystemMap(rules: seq<(string, string)>): Dict<Dict<string>>
    decreases |rules|
  {
    if rules == [] then [] else AddSystemRule(SystemMap(rules[..|rules| - 1]), rules[|rules| - 1])
  }

  /** The rule loop of `main` that fills `system_layout_map`. */
  method BuildSystemMap(rules: seq<(string, string)>) returns (m: Dict<Dict<string>>)
    ensures m == SystemMap(rules)
  {
    m := [];
    var i := 0;
    while i < |rules|
      invariant 0 <= i <= |rules|
      invariant m == SystemMap(rules[..i])
    {
      assert rules[..i + 1][..i] == rules[..i];
      var (sel, decls) := rules[i];
      var norm := NormalizeSelector(sel, false);
      var d := DeclarationsToDict(decls);
      var layout := ExtractLayout(d);
      if layout != [] {
        ghost var m0 := m;
        if norm !in Keys(m) {
          m := Put(m, norm, []);
        }
        var cur := Get(m, norm);
        m := Put(m, norm, Update(cur, layout));
        if norm !in Keys(m0) {
          PutTwice(m0, norm, [], Update(cur, layout));
        }
      }
      i := i + 1;
    }
    assert rules[..i] == rules;
  }

  predicate IsLayoutEntry(e: Entry<string>) {
    !IsColorOrFont(e.key)
  }

  /** A value of the system map: a well-formed dict of layout properties only. */
  predicate LayoutValue(e: Entry<Dict<string>>) {
    WellFormedDecls(e.val) && AllEntries(e.val, IsLayoutEntry)
  }

  predicate ValidSystemMap(m: Dict<Dict<string>>) {
    UniqueKeys(m) && AllEntries(m, LayoutValue)
  }

  lemma ExtractLayoutKeepsAll(d: Dict<string>, P: Entry<string> -> bool)
    requires AllEntries(d, P)
    ensures AllEntries(ExtractLayout(d), P) && AllEntries(ExtractLayout(d), IsLayoutEntry)
  {
    WithoutKeepsAll(d, IsColorOrFont, P);
  }

  /** A rule's layout is well formed and free of colours and fonts. */
  lemma RuleLayoutValid(decls: string)
    ensures WellFormedDecls(RuleLayout(decls)) && AllEntries(RuleLayout(decls), IsLayoutEntry)
  {
    var d := DeclsDict(Split(decls, ';'));
    DeclsDictWellFormed(decls);
    ExtractLayoutKeepsAll(d, GoodEntry);
    ExtractLayoutUnique(d);
  }

  lemma AddSystemRuleValid(m: Dict<Dict<string>>, rule: (string, string))
    requires ValidSystemMap(m)
    ensures ValidSystemMap(AddSystemRule(m, rule))
  {
    var norm := NormalizeSelector(rule.0, false);
    var layout := RuleLayout(rule.1);
    RuleLayoutValid(rule.1);
    if layout != [] {
      var cur := if norm in Keys(m) then Get(m, norm) else [];
      if norm in Keys(m) {
        GetAll(m, norm, LayoutValue);
      }
      assert WellFormedDecls(cur) && AllEntries(cur, IsLayoutEntry);
      var u := Update(cur, layout);
      UpdateKeepsAll(cur, layout, GoodEntry);
      UpdateKeepsAll(cur, layout, IsLayoutEntry);
      assert LayoutValue(Entry(norm, u));
      PutKeepsAll(m, norm, u, LayoutValue);
    }
  }

  /** Every value of the system map is a well-formed layout-only dict. */
  lemma {:induction false} SystemMapValid(rules: seq<(string, string)>)
    ensures ValidSystemMap(SystemMap(rules))
    decreases |rules|
  {
    if rules != [] {
      SystemMapValid(rules[..|rules| - 1]);
      AddSystemRuleValid(SystemMap(rules[..|rules| - 1]), rules[|rules| - 1]);
    }
  }

  /** Rule `i` puts key `s` into the map. */
  predicate AddsKey(rules: seq<(string, string)>, i: int, s: string) {
    0 <= i < |rules| && NormalizeSelector(rules[i].0, false) == s && RuleLayout(rules[i].1) != []
  }

  lemma AddSystemRuleKeys(m: Dict<Dict<string>>, rule: (string, string), s: string)
    ensures s in Keys(AddSystemRule(m, rule)) <==>
      s in Keys(m) || (NormalizeSelector(rule.0, false) == s && RuleLayout(rule.1) != [])
  {
    var norm := NormalizeSelector(rule.0, false);
    var layout := RuleLayout(rule.1);
    if layout != [] {
      var cur := if norm in Keys(m) then Get(m, norm) else [];
      PutKeys(m, norm, Update(cur, layout), s);
    }
  }

  lemma AddedByLast(rules: seq<(string, string)>, s: string, i: int)
    requires AddsKey(rules, i, s) && i >= |rules| - 1
    ensures s in Keys(SystemMap(rules))
  {
    var n := |rules| - 1;
    AddSystemRuleKeys(SystemMap(rules[..n]), rules[n], s);
  }

  lemma KeptFromInit(rules: seq<(string, string)>, s: string)
    requires rules != [] && s in Keys(SystemMap(rules[..|rules| - 1]))
    ensures s in Keys(SystemMap(rules))
  {
    var n := |rules| - 1;
    AddSystemRuleKeys(SystemMap(rules[..n]), rules[n], s);
  }

  lemma {:induction false} SystemMapKeysFrom(rules: seq<(string, string)>, s: string)
    requires s in Keys(SystemMap(rules))
    ensures exists i :: AddsKey(rules, i, s)
    decreases |rules|
  {
    var n := |rules| - 1;
    var init := rules[..n];
    AddSystemRuleKeys(SystemMap(init), rules[n], s);
    if s in Keys(SystemMap(init)) {
      SystemMapKeysFrom(init, s);
      var i :| AddsKey(init, i, s);
      assert init[i] == rules[i];
      assert AddsKey(rules, i, s);
    } else {
      assert AddsKey(rules, n, s);
    }
  }

  lemma AddsKeyInit(rules: seq<(string, string)>, s: string, i: int)
    requires AddsKey(rules, i, s) && i < |rules| - 1
    ensures AddsKey(rules[..|rules| - 1], i, s)
  {
    assert rules[..|rules| - 1][i] == rules[i];
  }

  lemma {:induction false} SystemMapKeysTo(rules: seq<(string, string)>, s: string, i: int)
    requires AddsKey(rules, i, s)
    ensures s in Keys(SystemMap(rules))
    decreases |rules|
  {
    if i < |rules| - 1 {
      AddsKeyInit(rules, s, i);
      SystemMapKeysTo(rules[..|rules| - 1], s, i);
      KeptFromInit(rules, s);
    } else {
      AddedByLast(rules, s, i);
    }
  }

  /** The map is keyed by exactly the normalised selectors of the system
      rules whose layout is not empty. */
  lemma SystemMapKeys(rules: seq<(string, string)>, s: string)
    ensures s in Keys(SystemMap(rules)) <==> exists i :: AddsKey(rules, i, s)
  {
    if s in Keys(SystemMap(rules)) {
      SystemMapKeysFrom(rules, s);
    }
    if exists i :: AddsKey(rules, i, s) {
      var i :| AddsKey(rules, i, s);
      SystemMapKeysTo(rules, s, i);
    }
  }

  // ---------------------------------------------------------------------
  // Short aliases for ".roam-main" keys.

  /** The prefix the alias loop of `main` tests, as written: it lacks the
      leading '.' every class-selector key keeps after normalisation. */
  const ALIAS_PREFIX_AS_WRITTEN: string := "roam-main "

  /** The prefix the loop means (its comment and the keys it expects,
      such as ".roam-main .roam-article"). */
  const ALIAS_PREFIX: string := ".roam-main "

  /** One key of the snapshot: a key that starts with `prefix` gets a
      short alias, created empty when missing and updated with the key's
      layout. */
  function AliasStep(m: Dict<Dict<string>>, k: string, prefix: string): Dict<Dict<string>>
    requires |prefix| > 0
  {
    if k in Keys(m) && StartsWith(k, prefix) then
      var short := ReplaceFirst(k, prefix, "");
      var cur := if short in Keys(m) then Get(m, short) else [];
      Put(m, short, Update(cur, Get(m, k)))
    else m
  }

  /** The alias loop over the key snapshot `ks`. */
  function Aliased(m: Dict<Dict<string>>, ks: seq<string>, prefix: string): Dict<Dict<string>>
    requires |prefix| > 0
    decreases |ks|
  {
    if ks == [] then m else AliasStep(Aliased(m, ks[..|ks| - 1], prefix), ks[|ks| - 1], prefix)
  }

  lemma AliasStepKeys(m: Dict<Dict<string>>, k: string, prefix: string, s: string)
    requires |prefix| > 0
    ensures s in Keys(AliasStep(m, k, prefix)) <==>
      s in Keys(m) || (k in Keys(m) && StartsWith(k, prefix) && s == k[|prefix|..])
  {
    if k in Keys(m) && StartsWith(k, prefix) {
      var short := ReplaceFirst(k, prefix, "");
      assert short == k[|prefix|..];
      var cur := if short in Keys(m) then Get(m, short) else [];
      PutKeys(m, short, Update(cur, Get(m, k)), s);
    }
  }

  lemma AliasedSnoc(m: Dict<Dict<string>>, ks: seq<string>, prefix: string, i: nat)
    requires |prefix| > 0 && i < |ks|
    ensures Aliased(m, ks[..i + 1], prefix) == AliasStep(Aliased(m, ks[..i], prefix), ks[i], prefix)
  {
    assert ks[..i + 1][..i] == ks[..i];
  }

  /** The two assignments of the loop body perform one `AliasStep`. */
  lemma AliasStepByPuts(m: Dict<Dict<string>>, k: string, prefix: string)
    requires |prefix| > 0 && k in Keys(m) && StartsWith(k, prefix)
    ensures var short := ReplaceFirst(k, prefix, "");
      var m1 := if short !in Keys(m) then Put(m, short, []) else m;
      short in Keys(m1) && k in Keys(m1) &&
      AliasStep(m, k, prefix) == Put(m1, short, Update(Get(m1, short), Get(m1, k)))
  {
    var short := ReplaceFirst(k, prefix, "");
    assert |short| < |k|;
    var cur := if short in Keys(m) then Get(m, short) else [];
    if short !in Keys(m) {
      PutTwice(m, short, [], Update(cur, Get(m, k)));
    }
  }

  /** `for k in list(system_layout_map)`: the loop over a snapshot of the
      keys, reading and writing the live map. */
  method AddAliases(m0: Dict<Dict<string>>, prefix: string) returns (m: Dict<Dict<string>>)
    requires |prefix| > 0
    ensures m == Aliased(m0, Keys(m0), prefix)
  {
    var ks := Keys(m0);
    m := m0;
    var i := 0;
    while i < |ks|
      invariant 0 <= i <= |ks|
      invariant m == Aliased(m0, ks[..i], prefix)
      invariant forall j :: 0 <= j < |ks| ==> ks[j] in Keys(m)
    {
      var k := ks[i];
      ghost var before := m;
      if StartsWith(k, prefix) {
        AliasStepByPuts(m, k, prefix);
        var short := ReplaceFirst(k, prefix, "");
        if short !in Keys(m) {
          m := Put(m, short, []);
        }
        m := Put(m, short, Update(Get(m, short), Get(m, k)));
      }
      assert m == AliasStep(before, k, prefix);
      AliasedSnoc(m0, ks, prefix, i);
      forall j | 0 <= j < |ks| ensures ks[j] in Keys(m) {
        AliasStepKeys(before, k, prefix, ks[j]);
      }
      i := i + 1;
    }
    assert ks[..i] == ks;
  }

  /** Key `ks[j]` of the snapshot yields the alias `s`. */
  predicate MakesAlias(ks: seq<string>, j: int, prefix: string, s: string) {
    0 <= j < |ks| && StartsWith(ks[j], prefix) && s == ks[j][|prefix|..]
  }

  /** Keys are only ever added. */
  lemma {:induction false} AliasedGrows(m: Dict<Dict<string>>, ks: seq<string>, prefix: string, s: string)
    requires |prefix| > 0 && s in Keys(m)
    ensures s in Keys(Aliased(m, ks, prefix))
    decreases |ks|
  {
    if ks != [] {
      var n := |ks| - 1;
      AliasedGrows(m, ks[..n], prefix, s);
      AliasStepKeys(Aliased(m, ks[..n], prefix), ks[n], prefix, s);
    }
  }

  lemma {:induction false} AliasedKeysFrom(m: Dict<Dict<string>>, ks: seq<string>, prefix: string, s: string)
    requires |prefix| > 0 && s in Keys(Aliased(m, ks, prefix)) && s !in Keys(m)
    ensures exists j :: MakesAlias(ks, j, prefix, s)
    decreases |ks|
  {
    var n := |ks| - 1;
    var init := ks[..n];
    AliasStepKeys(Aliased(m, init, prefix), ks[n], prefix, s);
    if s in Keys(Aliased(m, init, prefix)) {
      AliasedKeysFrom(m, init, prefix, s);
      var j :| MakesAlias(init, j, prefix, s);
      assert init[j] == ks[j];
      assert MakesAlias(ks, j, prefix, s);
    } else {
      assert MakesAlias(ks, n, prefix, s);
    }
  }

  lemma AliasMadeByInit(ks: seq<string>, prefix: string, s: string, j: int)
    requires MakesAlias(ks, j, prefix, s) && j < |ks| - 1
    ensures MakesAlias(ks[..|ks| - 1], j, prefix, s)
  {
    assert ks[..|ks| - 1][j] == ks[j];
  }

  lemma AliasMadeByLast(m: Dict<Dict<string>>, ks: seq<string>, prefix: string, s: string, j: int)
    requires |prefix| > 0 && MakesAlias(ks, j, prefix, s) && j >= |ks| - 1
    requires ks[j] in Keys(Aliased(m, ks[..|ks| - 1], prefix))
    ensures s in Keys(Aliased(m, ks, prefix))
  {
    AliasStepKeys(Aliased(m, ks[..|ks| - 1], prefix), ks[|ks| - 1], prefix, s);
  }

  lemma AliasKeptFromInit(m: Dict<Dict<string>>, ks: seq<string>, prefix: string, s: string)
    requires |prefix| > 0 && ks != [] && s in Keys(Aliased(m, ks[..|ks| - 1], prefix))
    ensures s in Keys(Aliased(m, ks, prefix))
  {
    AliasStepKeys(Aliased(m, ks[..|ks| - 1], prefix), ks[|ks| - 1], prefix, s);
  }

  lemma {:induction false} AliasedKeysTo(m: Dict<Dict<string>>, ks: seq<string>, prefix: string, s: string, j: int)
    requires |prefix| > 0 && MakesAlias(ks, j, prefix, s)
    requires forall i :: 0 <= i < |ks| ==> ks[i] in Keys(m)
    ensures s in Keys(Aliased(m, ks, prefix))
    decreases |ks|
  {
    if j < |ks| - 1 {
      AliasMadeByInit(ks, prefix, s, j);
      assert forall i :: 0 <= i < |ks| - 1 ==> ks[..|ks| - 1][i] == ks[i];
      AliasedKeysTo(m, ks[..|ks| - 1], prefix, s, j);
      AliasKeptFromInit(m, ks, prefix, s);
    } else {
      AliasedGrows(m, ks[..|ks| - 1], prefix, ks[j]);
      AliasMadeByLast(m, ks, prefix, s, j);
    }
  }

  /** After the loop the map holds its old keys and the alias of every
      snapshot key that starts with `prefix`, and nothing else. */
  lemma AliasedKeys(m: Dict<Dict<string>>, ks: seq<string>, prefix: string, s: string)
    requires |prefix| > 0 && forall j :: 0 <= j < |ks| ==> ks[j] in Keys(m)
    ensures s in Keys(Aliased(m, ks, prefix)) <==> s in Keys(m) || exists j :: MakesAlias(ks, j, prefix, s)
  {
    if s in Keys(Aliased(m, ks, prefix)) && s !in Keys(m) {
      AliasedKeysFrom(m, ks, prefix, s);
    }
    if s in Keys(m) {
      AliasedGrows(m, ks, prefix, s);
    }
    if exists j :: MakesAlias(ks, j, prefix, s) {
      var j :| MakesAlias(ks, j, prefix, s);
      AliasedKeysTo(m, ks, prefix, s, j);
    }
  }

  lemma AliasStepValid(m: Dict<Dict<string>>, k: string, prefix: string)
    requires |prefix| > 0 && ValidSystemMap(m)
    ensures ValidSystemMap(AliasStep(m, k, prefix))
  {
    if k in Keys(m) && StartsWith(k, prefix) {
      var short := ReplaceFirst(k, prefix, "");
      var cur := if short in Keys(m) then Get(m, short) else [];
      if short in Keys(m) {
        GetAll(m, short, LayoutValue);
      }
      GetAll(m, k, LayoutValue);
      var u := Update(cur, Get(m, k));
      UpdateKeepsAll(cur, Get(m, k), GoodEntry);
      UpdateKeepsAll(cur, Get(m, k), IsLayoutEntry);
      assert LayoutValue(Entry(short, u));
      PutKeepsAll(m, short, u, LayoutValue);
    }
  }

  /** The aliases keep the map valid: every value stays a well-formed
      layout-only dict. */
  lemma {:induction false} AliasedValid(m: Dict<Dict<string>>, ks: seq<string>, prefix: string)
    requires |prefix| > 0 && ValidSystemMap(m)
    ensures ValidSystemMap(Aliased(m, ks, prefix))
    decreases |ks|
  {
    if ks != [] {
      AliasedValid(m, ks[..|ks| - 1], prefix);
      AliasStepValid(Aliased(m, ks[..|ks| - 1], prefix), ks[|ks| - 1], prefix);
    }
  }

  /** When no snapshot key starts with `prefix` the loop changes nothing. */
  lemma {:induction false} AliasedNoop(m: Dict<Dict<string>>, ks: seq<string>, prefix: string)
    requires |prefix| > 0 && forall j :: 0 <= j < |ks| ==> !StartsWith(ks[j], prefix)
    ensures Aliased(m, ks, prefix) == m
    decreases |ks|
  {
    if ks != [] {
      var n := |ks| - 1;
      assert forall j :: 0 <= j < n ==> ks[..n][j] == ks[j];
      AliasedNoop(m, ks[..n], prefix);
    }
  }

  /** As written, the loop never fires for class-selector keys: a key that
      starts with '.' cannot start with "roam-main ". */
  lemma AliasAsWrittenSkipsClassKeys(m: Dict<Dict<string>>)
    requires forall j :: 0 <= j < |m| ==> m[j].key != [] && m[j].key[0] == '.'
    ensures Aliased(m, Keys(m), ALIAS_PREFIX_AS_WRITTEN) == m
  {
    var ks := Keys(m);
    forall j | 0 <= j < |ks| ensures !StartsWith(ks[j], ALIAS_PREFIX_AS_WRITTEN) {
      assert ks[j] == m[j].key;
      NotStartsWithFirst(ks[j], ALIAS_PREFIX_AS_WRITTEN);
    }
    AliasedNoop(m, ks, ALIAS_PREFIX_AS_WRITTEN);
  }

  /** The system's ".roam-body .roam-app .roam-main .roam-article" rule is
      keyed ".roam-main .roam-article"; as written, no ".roam-article"
      alias is made for roam's ".roam-app .roam-article" to match. */
  lemma AliasAsWrittenMissesArticle(v: Dict<string>)
    ensures var m := [Entry(".roam-main .roam-article", v)];
      ".roam-article" !in Keys(Aliased(m, Keys(m), ALIAS_PREFIX_AS_WRITTEN))
  {
    var m := [Entry(".roam-main .roam-article", v)];
    AliasAsWrittenSkipsClassKeys(m);
    assert Keys(m) == [".roam-main .roam-article"];
    assert |".roam-article"| != |".roam-main .roam-article"|;
  }

  /** A key `prefix + b` whose alias `b` is new gives `b` a copy of its layout. */
  lemma AliasStepNewAlias(m: Dict<Dict<string>>, prefix: string, b: string)
    requires |prefix| > 0 && prefix + b in Keys(m) && b !in Keys(m)
    ensures var r := AliasStep(m, prefix + b, prefix);
      b in Keys(r) && Get(r, b) == Update([], Get(m, prefix + b))
  {
    var k := prefix + b;
    assert k[..|prefix|] == prefix;
    assert k[|prefix|..] == b;
    assert ReplaceFirst(k, prefix, "") == b;
    var u := Update([], Get(m, k));
    assert AliasStep(m, k, prefix) == Put(m, b, u);
  }

  /** With the intended prefix the alias is made and carries the layout. */
  lemma AliasCorrectedAddsArticle(v: Dict<string>)
    requires UniqueKeys(v)
    ensures var m := [Entry(".roam-main .roam-article", v)];
      var r := Aliased(m, Keys(m), ALIAS_PREFIX);
      ".roam-article" in Keys(r) && Get(r, ".roam-article") == v
  {
    var b := ".roam-article";
    var k := ALIAS_PREFIX + b;
    assert k == ".roam-main .roam-article";
    var m := [Entry(k, v)];
    assert Keys(m) == [k];
    assert b !in Keys(m);
    assert Get(m, k) == v;
    AliasStepNewAlias(m, ALIAS_PREFIX, b);
    UpdateEmpty(v);
    assert Keys(m)[..0] == [];
    assert Aliased(m, Keys(m), ALIAS_PREFIX) == AliasStep(m, k, ALIAS_PREFIX);
  }

  // ---------------------------------------------------------------------
  // Rebuilding roam.css.

  /** The pieces of a '}'-separated part that holds '{': the text before
      its last '{', that text stripped (the selector), and the stripped
      text after it (the declarations). */
  function RuleParts(part: string): (r: (string, string, string))
    requires '{' in part
    ensures '{' !in r.2
  {
    var (before, rest) := PartitionLast(part, '{');
    (before, Trim(before), Trim(rest))
  }

  /** The key a roam selector list is looked up under: its first selector,
      stripped, then normalised with the ".roam-app " prefix dropped. */
  function RoamKey(selector: string): string {
    NormalizeSelector(Trim(Split(selector, ',')[0]), true)
  }

  /** A part `main` rewrites: it holds '{', both pieces are non-empty, the
      declarations hold no '{', and the key is in the map. */
  predicate Matches(part: string, m: Dict<Dict<string>>) {
    '{' in part &&
    var (_, selector, decls) := RuleParts(part);
    selector != [] && decls != [] && '{' !in decls && RoamKey(selector) in Keys(m)
  }

  /** The line separator for the merged declarations: one per line when
      the original declarations spanned lines. */
  function Sep(decls: string): string {
    if '\n' in decls then ";\n  " else "; "
  }

  /** The rewritten rule: the text before the '{' is kept and the merged
      declarations follow on their own lines. */
  function NewRule(before: string, decls: string, sys: Dict<string>): string {
    var merged := DictToDeclarations(Merged(DeclsDict(Split(decls, ';')), sys));
    before + "{\n  " + Replace(merged, "; ", Sep(decls)) + "\n"
  }

  /** One part of the rebuild loop: a part `Matches` selects is rewritten,
      any other part is kept verbatim. */
  function RebuiltPart(part: string, m: Dict<Dict<string>>): string {
    if Matches(part, m) then
      var (before, selector, decls) := RuleParts(part);
      NewRule(before, decls, Get(m, RoamKey(selector)))
    else part
  }

  function RebuiltParts(parts: seq<string>, m: Dict<Dict<string>>): (r: seq<string>)
    ensures |r| == |parts|
    ensures forall i :: 0 <= i < |parts| ==> r[i] == RebuiltPart(parts[i], m)
  {
    seq(|parts|, i requires 0 <= i < |parts| => RebuiltPart(parts[i], m))
  }

  /** The body of the rebuild loop for one part. */
  method RebuildPart(part: string, m: Dict<Dict<string>>) returns (out: string)
    ensures out == RebuiltPart(part, m)
  {
    if '{' !in part {
      return part;
    }
    var (before, rest) := PartitionLast(part, '{');
    var selector := Trim(before);
    var decls := Trim(rest);
    assert RuleParts(part) == (before, selector, decls);
    if selector == [] || decls == [] {
      return part;
    }
    if '{' in decls {
      return part;
    }
    var normRoam := RoamKey(selector);
    if normRoam in Keys(m) {
      var merged := MergeRule(decls, Get(m, normRoam));
      out := before + "{\n  " + Replace(merged, "; ", Sep(decls)) + "\n";
    } else {
      out := part;
    }
  }

  /** The rebuild loop of `main`: split on '}', rebuild each part, join. */
  method Rebuild(roamCss: string, m: Dict<Dict<string>>) returns (result: string)
    ensures result == Join(RebuiltParts(Split(roamCss, '}'), m), "}")
  {
    var parts := Split(roamCss, '}');
    var outParts: seq<string> := [];
    var i := 0;
    while i < |parts|
      invariant 0 <= i <= |parts|
      invariant |outParts| == i
      invariant forall k :: 0 <= k < i ==> outParts[k] == RebuiltPart(parts[k], m)
    {
      var out := RebuildPart(parts[i], m);
      outParts := outParts + [out];
      i := i + 1;
    }
    assert outParts == RebuiltParts(parts, m);
    result := Join(outParts, "}");
  }

  /** Parts no key matches come out verbatim, so a stylesheet none of whose
      rules match comes out unchanged. */
  lemma {:induction false} RebuildNoMatchIsIdentity(roamCss: string, m: Dict<Dict<string>>)
    requires forall k :: 0 <= k < |Split(roamCss, '}')| ==> !Matches(Split(roamCss, '}')[k], m)
    ensures Join(RebuiltParts(Split(roamCss, '}'), m), "}") == roamCss
  {
    var parts := Split(roamCss, '}');
    assert RebuiltParts(parts, m) == parts;
    JoinSplit(roamCss, '}');
  }

  /** With no system rules at all the rebuild is the identity. */
  lemma RebuildEmptyMapIsIdentity(roamCss: string)
    ensures Join(RebuiltParts(Split(roamCss, '}'), []), "}") == roamCss
  {
    RebuildNoMatchIsIdentity(roamCss, []);
  }

  /** A rewritten part keeps everything up to and including its last '{'
      and ends its declarations with a line break. */
  lemma RebuiltPartShape(part: string, m: Dict<Dict<string>>)
    requires Matches(part, m)
    ensures var r := RebuiltPart(part, m);
      StartsWith(r, RuleParts(part).0 + "{") && r[|r| - 1] == '\n'
  {
    var (before, selector, decls) := RuleParts(part);
    var sys := Get(m, RoamKey(selector));
    var body := Replace(DictToDeclarations(Merged(DeclsDict(Split(decls, ';')), sys)), "; ", Sep(decls));
    assert RebuiltPart(part, m) == before + "{\n  " + body + "\n";
    RuleTextShape(before, body);
  }

  lemma RuleTextShape(before: string, body: string)
    ensures var r := before + "{\n  " + body + "\n";
      StartsWith(r, before + "{") && r[|r| - 1] == '\n'
  {
    var r := before + "{\n  " + body + "\n";
    assert r[..|before + "{"|] == before + "{";
  }

  /** For a single-line rule the rewritten declarations are exactly the
      merged dict's printout, and re-parsing them yields that dict: roam's
      colour and font values and the system's layout values. */
  lemma RebuiltSingleLineReparses(part: string, m: Dict<Dict<string>>)
    requires ValidSystemMap(m) && Matches(part, m) && '\n' !in RuleParts(part).2
    ensures var (before, selector, decls) := RuleParts(part);
      var merged := Merged(DeclsDict(Split(decls, ';')), Get(m, RoamKey(selector)));
      RebuiltPart(part, m) == before + "{\n  " + DictToDeclarations(merged) + "\n" &&
      DeclsDict(Split(DictToDeclarations(merged), ';')) == merged
  {
    var (before, selector, decls) := RuleParts(part);
    var key := RoamKey(selector);
    GetAll(m, key, LayoutValue);
    var merged := Merged(DeclsDict(Split(decls, ';')), Get(m, key));
    ReplaceSame(DictToDeclarations(merged), "; ");
    MergeRuleReparses(decls, Get(m, key));
  }

  // ---------------------------------------------------------------------
  // The whole script.

  /** `main` without its file I/O: parse the system rules, build the layout
      map, add the short-form keys of the keys that start with `prefix`,
      and rebuild the roam stylesheet. The program as written passes
      `ALIAS_PREFIX_AS_WRITTEN`, whose alias loop then adds nothing to a map
      of class-selector keys (`AliasAsWrittenSkipsClassKeys`); the intended
      pass is `ALIAS_PREFIX`. */
  method RefactorRoamCss(systemCss: string, roamCss: string, prefix: string) returns (result: string, sysMap: Dict<Dict<string>>)
    requires |prefix| > 0
    ensures ValidSystemMap(sysMap)
    ensures var base := SystemMap(ParsedRules(Split(RemoveComments(systemCss), '}')));
      sysMap == Aliased(base, Keys(base), prefix)
    ensures result == Join(RebuiltParts(Split(roamCss, '}'), sysMap), "}")
  {
    var rules := ParseCssRules(systemCss);
    var m0 := BuildSystemMap(rules);
    SystemMapValid(rules);
    sysMap := AddAliases(m0, prefix);
    AliasedValid(m0, Keys(m0), prefix);
    result := Rebuild(roamCss, sysMap);
  }
}
