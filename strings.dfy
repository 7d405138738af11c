/** The few pieces of Python's `str` that the CSS tools rely on, stated over
    `seq<char>`: `strip`, `lower`, `in`, `startswith`, `split`, `join`,
    `partition`, `replace`, slicing with `[:n]` and comparison with `<=`.
    Whitespace and case are ASCII only (see README, "Left out"). */
module Strings {

  /** The characters `str.strip()` and the regex class `\s` treat as
      whitespace, restricted to ASCII. */
  predicate IsSpace(c: char) {
    c == ' ' || c == '\t' || c == '\n' || c == '\r' || c == '\U{000B}' || c == '\U{000C}'
  }

  predicate NoSpaceAtEnds(s: string) {
    s == [] || (!IsSpace(s[0]) && !IsSpace(s[|s| - 1]))
  }

  /** The length of the run of whitespace starting at position `i`. */
  function SpacesFrom(s: string, i: nat): (n: nat)
    ensures i <= |s| ==> i + n <= |s|
    ensures i + n < |s| ==> !IsSpace(s[i + n])
    decreases |s| - i
  {
    if i < |s| && IsSpace(s[i]) then 1 + SpacesFrom(s, i + 1) else 0
  }

  lemma {:induction false} SpacesFromAreSpaces(s: string, i: nat, k: nat)
    requires i <= k < i + SpacesFrom(s, i)
    ensures k < |s| && IsSpace(s[k])
    decreases k - i
  {
    if i < k {
      SpacesFromAreSpaces(s, i + 1, k);
    }
  }

  /** The length of the run of whitespace ending just before position `j`. */
  function SpacesBefore(s: string, j: nat): (n: nat)
    requires j <= |s|
    ensures n <= j
    ensures n < j ==> !IsSpace(s[j - 1 - n])
    decreases j
  {
    if j > 0 && IsSpace(s[j - 1]) then 1 + SpacesBefore(s, j - 1) else 0
  }

  lemma {:induction false} SpacesBeforeAreSpaces(s: string, j: nat, k: nat)
    requires j <= |s| && j - SpacesBefore(s, j) <= k < j
    ensures IsSpace(s[k])
    decreases j
  {
    if k < j - 1 {
      SpacesBeforeAreSpaces(s, j - 1, k);
    }
  }

  /** Python's `s.lstrip()`. */
  function TrimLeft(s: string): (r: string)
    ensures |r| <= |s| && r == s[|s| - |r|..]
    ensures r == [] || !IsSpace(r[0])
  {
    s[SpacesFrom(s, 0)..]
  }

  /** What `lstrip` removes is whitespace. */
  lemma TrimLeftDropsSpaces(s: string)
    ensures forall i :: 0 <= i < |s| - |TrimLeft(s)| ==> IsSpace(s[i])
  {
    forall i | 0 <= i < |s| - |TrimLeft(s)|
      ensures IsSpace(s[i])
    {
      SpacesFromAreSpaces(s, 0, i);
    }
  }

  /** Python's `s.rstrip()`. */
  function TrimRight(s: string): (r: string)
    ensures |r| <= |s| && r == s[..|r|]
    ensures r == [] || !IsSpace(r[|r| - 1])
  {
    s[..|s| - SpacesBefore(s, |s|)]
  }

  /** What `rstrip` removes is whitespace. */
  lemma TrimRightDropsSpaces(s: string)
    ensures forall i :: |TrimRight(s)| <= i < |s| ==> IsSpace(s[i])
  {
    forall i | |TrimRight(s)| <= i < |s|
      ensures IsSpace(s[i])
    {
      SpacesBeforeAreSpaces(s, |s|, i);
    }
  }

  lemma {:induction false} SpacesFromTail(s: string, i: nat)
    requires s != []
    ensures SpacesFrom(s, i + 1) == SpacesFrom(s[1..], i)
    decreases |s| - i
  {
    if i + 1 < |s| {
      assert s[i + 1] == s[1..][i];
      SpacesFromTail(s, i + 1);
    }
  }

  lemma {:induction false} SpacesBeforePrefix(s: string, k: nat, j: nat)
    requires j <= k <= |s|
    ensures SpacesBefore(s[..k], j) == SpacesBefore(s, j)
    decreases j
  {
    if j > 0 {
      assert s[..k][j - 1] == s[j - 1];
      SpacesBeforePrefix(s, k, j - 1);
    }
  }

  /** `lstrip` removes one leading whitespace character at a time. */
  lemma TrimLeftStep(s: string)
    ensures TrimLeft(s) == if |s| > 0 && IsSpace(s[0]) then TrimLeft(s[1..]) else s
  {
    if |s| > 0 {
      SpacesFromTail(s, 0);
      assert s[1..][SpacesFrom(s, 1)..] == s[1 + SpacesFrom(s, 1)..];
    }
  }

  /** `rstrip` removes one trailing whitespace character at a time. */
  lemma TrimRightStep(s: string)
    ensures TrimRight(s) == if |s| > 0 && IsSpace(s[|s| - 1]) then TrimRight(s[..|s| - 1]) else s
  {
    if |s| > 0 {
      var n := |s| - 1;
      SpacesBeforePrefix(s, n, n);
      assert s[..n][..n - SpacesBefore(s, n)] == s[..n - SpacesBefore(s, n)];
    }
  }

  /** Python's `s.strip()`. */
  function Trim(s: string): (r: string)
    ensures NoSpaceAtEnds(r)
    ensures |r| <= |s|
  {
    var l := TrimLeft(s);
    TrimRight(l)
  }

  /** `strip` only removes characters. */
  lemma TrimChars(s: string)
    ensures forall x :: x in Trim(s) ==> x in s
  {
    var l := TrimLeft(s);
    assert forall x :: x in TrimRight(l) ==> x in l;
  }

  /** A string with no whitespace at either end is its own strip. */
  lemma {:induction false} TrimOfTrimmed(s: string)
    requires NoSpaceAtEnds(s)
    ensures Trim(s) == s
  {
  }

  lemma TrimIdempotent(s: string)
    ensures Trim(Trim(s)) == Trim(s)
  {
    TrimOfTrimmed(Trim(s));
  }

  /** `prefix in s` with `s.startswith(prefix)`. */
  predicate StartsWith(s: string, prefix: string) {
    |prefix| <= |s| && s[..|prefix|] == prefix
  }

  /** Python's `sub in s` for strings. */
  predicate Contains(s: string, sub: string)
    decreases |s|
  {
    StartsWith(s, sub) || (|s| > 0 && Contains(s[1..], sub))
  }

  /** The position of the first `c` in `s`, if any (`s.find(c)`). */
  function FindChar(s: string, c: char): (r: int)
    ensures -1 <= r < |s|
    ensures r == -1 <==> c !in s
    ensures r >= 0 ==> s[r] == c && c !in s[..r]
  {
    if |s| == 0 then -1
    else if s[0] == c then 0
    else var k := FindChar(s[1..], c); if k < 0 then -1 else k + 1
  }

  /** The position of the last `c` in `s`, if any (`s.rfind(c)`). */
  function RFindChar(s: string, c: char): (r: int)
    ensures -1 <= r < |s|
    ensures r == -1 <==> c !in s
    ensures r >= 0 ==> s[r] == c && c !in s[r + 1..]
  {
    if |s| == 0 then -1
    else if s[|s| - 1] == c then |s| - 1
    else RFindChar(s[..|s| - 1], c)
  }

  /** Python's `s.split(c)` for a one-character separator: never empty,
      and `c` occurs in no piece. */
  function Split(s: string, c: char): (r: seq<string>)
    ensures |r| >= 1
    ensures forall i :: 0 <= i < |r| ==> c !in r[i]
    decreases |s|
  {
    var k := FindChar(s, c);
    if k < 0 then [s] else [s[..k]] + Split(s[k + 1..], c)
  }

  /** Python's `sep.join(parts)`. */
  function Join(parts: seq<string>, sep: string): string {
    if |parts| == 0 then []
    else if |parts| == 1 then parts[0]
    else parts[0] + sep + Join(parts[1..], sep)
  }

  /** Splitting on `c` and joining again with `c` gives the string back:
      `"}".join(s.split("}")) == s`. */
  lemma {:induction false} JoinSplit(s: string, c: char)
    ensures Join(Split(s, c), [c]) == s
    decreases |s|
  {
    var k := FindChar(s, c);
    if k >= 0 {
      var pre, rest := s[..k], s[k + 1..];
      assert Join(Split(rest, c), [c]) == rest by { JoinSplit(rest, c); }
      assert Split(s, c) == [pre] + Split(rest, c) by { SplitAt(s, c, k); }
      assert Join([pre] + Split(rest, c), [c]) == pre + [c] + Join(Split(rest, c), [c]) by {
        JoinCons(pre, Split(rest, c), [c]);
      }
      AroundIndex(s, k);
    } else {
      SplitUnfold(s, c);
    }
  }

  /** A sequence is its prefix, the element at `k` and its suffix. */
  lemma AroundIndex<T>(s: seq<T>, k: nat)
    requires k < |s|
    ensures s == s[..k] + [s[k]] + s[k + 1..]
  {
  }

  lemma SplitAt(s: string, c: char, k: int)
    requires k == FindChar(s, c) && k >= 0
    ensures Split(s, c) == [s[..k]] + Split(s[k + 1..], c)
  {
    SplitUnfold(s, c);
  }

  lemma SplitUnfold(s: string, c: char)
    ensures Split(s, c) == var k := FindChar(s, c); if k < 0 then [s] else [s[..k]] + Split(s[k + 1..], c)
  {
  }

  lemma JoinCons(x: string, parts: seq<string>, sep: string)
    requires |parts| >= 1
    ensures Join([x] + parts, sep) == x + sep + Join(parts, sep)
  {
    assert ([x] + parts)[1..] == parts;
  }

  /** Joining pieces free of `c` with `c` and splitting again gives the pieces back. */
  lemma {:induction false} SplitJoin(parts: seq<string>, c: char)
    requires |parts| >= 1
    requires forall i :: 0 <= i < |parts| ==> c !in parts[i]
    ensures Split(Join(parts, [c]), c) == parts
  {
    if |parts| == 1 {
      assert FindChar(parts[0], c) == -1;
    } else {
      var s := Join(parts, [c]);
      var rest := Join(parts[1..], [c]);
      assert s == parts[0] + [c] + rest;
      FindCharAfter(parts[0], c, rest);
      assert s[..|parts[0]|] == parts[0];
      assert s[|parts[0]| + 1..] == rest;
      SplitJoin(parts[1..], c);
    }
  }

  lemma FindCharAfter(a: string, c: char, b: string)
    requires c !in a
    ensures FindChar(a + [c] + b, c) == |a|
  {
    var s := a + [c] + b;
    assert s[..|a|] == a;
    assert s[|a|] == c;
  }

  /** Python's `s.partition(c)` when `c` is in `s`: text before the first `c`
      and text after it. */
  function PartitionFirst(s: string, c: char): (r: (string, string))
    requires c in s
    ensures c !in r.0
    ensures s == r.0 + [c] + r.1
  {
    var k := FindChar(s, c);
    assert s == s[..k] + [c] + s[k + 1..];
    (s[..k], s[k + 1..])
  }

  /** Python's `s.rpartition(c)` when `c` is in `s`: text before the last `c`
      and text after it. */
  function PartitionLast(s: string, c: char): (r: (string, string))
    requires c in s
    ensures c !in r.1
    ensures s == r.0 + [c] + r.1
  {
    var k := RFindChar(s, c);
    assert s == s[..k] + [c] + s[k + 1..];
    (s[..k], s[k + 1..])
  }

  function LowerChar(c: char): char {
    if 'A' <= c <= 'Z' then (c as int - 'A' as int + 'a' as int) as char else c
  }

  /** Python's `s.lower()` on ASCII letters. */
  function Lower(s: string): (r: string)
    ensures |r| == |s|
    ensures forall i :: 0 <= i < |s| ==> r[i] == LowerChar(s[i])
  {
    if |s| == 0 then [] else [LowerChar(s[0])] + Lower(s[1..])
  }

  /** Python's `s.replace(pat, repl)` for a non-empty `pat`: every
      non-overlapping occurrence, scanning from the left. */
  function Replace(s: string, pat: string, repl: string): (r: string)
    requires |pat| > 0
    ensures !Contains(s, pat) ==> r == s
    decreases |s|
  {
    if |s| == 0 then []
    else if StartsWith(s, pat) then repl + Replace(s[|pat|..], pat, repl)
    else [s[0]] + Replace(s[1..], pat, repl)
  }

  /** Python's `s.replace(pat, repl, 1)`: the first occurrence only. */
  function ReplaceFirst(s: string, pat: string, repl: string): (r: string)
    requires |pat| > 0
    ensures !Contains(s, pat) ==> r == s
    ensures StartsWith(s, pat) ==> r == repl + s[|pat|..]
    decreases |s|
  {
    if StartsWith(s, pat) then repl + s[|pat|..]
    else if |s| == 0 then []
    else [s[0]] + ReplaceFirst(s[1..], pat, repl)
  }

  /** `ReplaceFirst` cuts the first occurrence of `pat`, wherever it is. */
  lemma ReplaceFirstAtFirst(s: string, pat: string, repl: string)
    requires |pat| > 0 && FindSub(s, pat) >= 0
    ensures FindSub(s, pat) + |pat| <= |s|
    ensures ReplaceFirst(s, pat, repl) == s[..FindSub(s, pat)] + repl + s[FindSub(s, pat) + |pat|..]
  {
    var k := FindSub(s, pat);
    assert k + |pat| <= |s| && s[k..k + |pat|] == pat by {
      assert StartsWith(s[k..], pat);
      assert s[k..][..|pat|] == s[k..k + |pat|];
    }
    ReplaceFirstAt(s, pat, repl, k);
  }

  /** The same, for an occurrence at `k` with none before it. */
  lemma {:induction false} ReplaceFirstAt(s: string, pat: string, repl: string, k: nat)
    requires |pat| > 0 && k + |pat| <= |s| && s[k..k + |pat|] == pat
    requires forall j :: 0 <= j < k ==> !StartsWith(s[j..], pat)
    ensures ReplaceFirst(s, pat, repl) == s[..k] + repl + s[k + |pat|..]
    decreases k
  {
    if k == 0 {
      assert s[..|pat|] == s[0..|pat|];
      assert StartsWith(s, pat);
      assert s[..0] == [];
    } else {
      ShiftFirst(s, pat, k);
      ReplaceFirstAt(s[1..], pat, repl, k - 1);
      ReplaceFirstCons(s, pat, repl, k);
    }
  }

  /** An occurrence at `k > 0` with none before it is one at `k - 1` in
      `s[1..]` with none before it. */
  lemma ShiftFirst(s: string, pat: string, k: nat)
    requires 0 < k && k + |pat| <= |s| && s[k..k + |pat|] == pat
    requires forall j :: 0 <= j < k ==> !StartsWith(s[j..], pat)
    ensures s[1..][k - 1..k - 1 + |pat|] == pat
    ensures forall j :: 0 <= j < k - 1 ==> !StartsWith(s[1..][j..], pat)
  {
    forall j | 0 <= j < k - 1 ensures !StartsWith(s[1..][j..], pat) {
      assert s[1..][j..] == s[j + 1..];
    }
  }

  lemma ReplaceFirstCons(s: string, pat: string, repl: string, k: nat)
    requires |pat| > 0 && 0 < k && k + |pat| <= |s| && !StartsWith(s[0..], pat)
    requires ReplaceFirst(s[1..], pat, repl) == s[1..][..k - 1] + repl + s[1..][k - 1 + |pat|..]
    ensures ReplaceFirst(s, pat, repl) == s[..k] + repl + s[k + |pat|..]
  {
    assert s[0..] == s;
    ReplaceFirstStep(s, pat, repl);
    ConsCut(s, k - 1, |pat|, repl);
  }

  lemma ConsCut(s: string, k: nat, n: nat, repl: string)
    requires k + 1 + n <= |s|
    ensures [s[0]] + (s[1..][..k] + repl + s[1..][k + n..]) == s[..k + 1] + repl + s[k + 1 + n..]
  {
    assert [s[0]] + s[1..][..k] == s[..k + 1];
    assert s[1..][k + n..] == s[k + 1 + n..];
  }

  lemma ReplaceFirstStep(s: string, pat: string, repl: string)
    requires |pat| > 0 && !StartsWith(s, pat) && |s| > 0
    ensures ReplaceFirst(s, pat, repl) == [s[0]] + ReplaceFirst(s[1..], pat, repl)
  {
  }

  /** Python's `s[:n]`. */
  function Take<T>(s: seq<T>, n: nat): (r: seq<T>)
    ensures |r| <= n && |r| <= |s|
    ensures r == s[..|r|]
    ensures |s| <= n ==> r == s
  {
    if |s| <= n then s else s[..n]
  }

  /** Python's `a <= b` on strings: lexicographic order on code points. */
  predicate StrLe(a: string, b: string) {
    if a == [] then true
    else if b == [] then false
    else if a[0] != b[0] then a[0] < b[0]
    else StrLe(a[1..], b[1..])
  }

  lemma {:induction false} StrLeTotal(a: string, b: string)
    ensures StrLe(a, b) || StrLe(b, a)
  {
    if a != [] && b != [] && a[0] == b[0] {
      StrLeTotal(a[1..], b[1..]);
    }
  }

  lemma {:induction false} StrLeTrans(a: string, b: string, c: string)
    requires StrLe(a, b) && StrLe(b, c)
    ensures StrLe(a, c)
  {
    if a != [] && b != [] && c != [] && a[0] == b[0] && b[0] == c[0] {
      StrLeTrans(a[1..], b[1..], c[1..]);
    }
  }

  lemma {:induction false} StrLeAntisym(a: string, b: string)
    requires StrLe(a, b) && StrLe(b, a)
    ensures a == b
  {
    if a != [] && b != [] {
      StrLeAntisym(a[1..], b[1..]);
      assert a == [a[0]] + a[1..];
      assert b == [b[0]] + b[1..];
    }
  }

  /** Lowering a letter never gives whitespace. */
  lemma LowerCharSpace(c: char)
    ensures IsSpace(LowerChar(c)) == IsSpace(c)
  {
  }

  lemma {:induction false} SpacesFromLower(s: string, i: nat)
    ensures SpacesFrom(Lower(s), i) == SpacesFrom(s, i)
    decreases |s| - i
  {
    if i < |s| {
      LowerCharSpace(s[i]);
      SpacesFromLower(s, i + 1);
    }
  }

  lemma {:induction false} SpacesBeforeLower(s: string, j: nat)
    requires j <= |s|
    ensures SpacesBefore(Lower(s), j) == SpacesBefore(s, j)
    decreases j
  {
    if j > 0 {
      LowerCharSpace(s[j - 1]);
      SpacesBeforeLower(s, j - 1);
    }
  }

  lemma TrimLeftLower(s: string)
    ensures TrimLeft(Lower(s)) == Lower(TrimLeft(s))
  {
    SpacesFromLower(s, 0);
    LowerDrop(s, SpacesFrom(s, 0));
  }

  lemma LowerDrop(s: string, n: nat)
    requires n <= |s|
    ensures Lower(s)[n..] == Lower(s[n..])
  {
    assert forall i :: 0 <= i < |s| - n ==> Lower(s)[n..][i] == Lower(s[n..])[i];
  }

  lemma TrimRightLower(s: string)
    ensures TrimRight(Lower(s)) == Lower(TrimRight(s))
  {
    SpacesBeforeLower(s, |s|);
    LowerTake(s, |s| - SpacesBefore(s, |s|));
  }

  lemma LowerTake(s: string, n: nat)
    requires n <= |s|
    ensures Lower(s)[..n] == Lower(s[..n])
  {
    assert forall i :: 0 <= i < n ==> Lower(s)[..n][i] == Lower(s[..n])[i];
  }

  /** Lowering never creates or removes whitespace, so it commutes with `strip`. */
  lemma TrimLower(s: string)
    ensures Trim(Lower(s)) == Lower(Trim(s))
  {
    TrimLeftLower(s);
    TrimRightLower(TrimLeft(s));
  }

  lemma LowerIdempotent(s: string)
    ensures Lower(Lower(s)) == Lower(s)
  {
  }

  function StripCharLeft(s: string, c: char): (r: string)
    ensures |r| <= |s| && r == s[|s| - |r|..]
    ensures r == [] || r[0] != c
    ensures forall i :: 0 <= i < |s| - |r| ==> s[i] == c
  {
    if |s| > 0 && s[0] == c then StripCharLeft(s[1..], c) else s
  }

  function StripCharRight(s: string, c: char): (r: string)
    ensures |r| <= |s| && r == s[..|r|]
    ensures r == [] || r[|r| - 1] != c
    ensures forall i :: |r| <= i < |s| ==> s[i] == c
  {
    if |s| > 0 && s[|s| - 1] == c then StripCharRight(s[..|s| - 1], c) else s
  }

  /** Python's `s.strip(c)` for one character `c`. */
  function StripChar(s: string, c: char): (r: string)
    ensures |r| <= |s|
    ensures r == [] || (r[0] != c && r[|r| - 1] != c)
    ensures forall x :: x in r ==> x in s
  {
    var l := StripCharLeft(s, c);
    assert l == [] || l[|l| - 1] == s[|s| - 1];
    var r := StripCharRight(l, c);
    assert r != [] ==> r[0] == l[0];
    assert forall x :: x in r ==> x in l;
    r
  }

  /** The position of the first occurrence of `pat` in `s` (`s.find(pat)`). */
  function FindSub(s: string, pat: string): (r: int)
    ensures -1 <= r <= |s|
    ensures r == -1 <==> !Contains(s, pat)
    ensures r >= 0 ==> StartsWith(s[r..], pat) && forall j :: 0 <= j < r ==> !StartsWith(s[j..], pat)
    decreases |s|
  {
    if StartsWith(s, pat) then 0
    else if |s| == 0 then -1
    else
      var k := FindSub(s[1..], pat);
      if k < 0 then -1
      else
        assert forall j :: 1 <= j <= k ==> s[j..] == s[1..][j - 1..];
        k + 1
  }

  predicate AllSpace(s: string) {
    forall i :: 0 <= i < |s| ==> IsSpace(s[i])
  }

  /** `s.strip()` is empty exactly when `s` is all whitespace. */
  lemma TrimEmptyIff(s: string)
    ensures Trim(s) == [] <==> AllSpace(s)
  {
    if AllSpace(s) {
      assert s + [] == s;
      TrimLeftSpaces(s, []);
    }
    if Trim(s) == [] {
      var l := TrimLeft(s);
      TrimLeftDropsSpaces(s);
      TrimRightDropsSpaces(l);
      assert forall i :: |s| - |l| <= i < |s| ==> s[i] == l[i - (|s| - |l|)];
    }
  }

  lemma {:induction false} SpacesFromSpaces(pre: string, x: string, i: nat)
    requires AllSpace(pre) && (x == [] || !IsSpace(x[0])) && i <= |pre|
    ensures SpacesFrom(pre + x, i) == |pre| - i
    decreases |pre| - i
  {
    if i < |pre| {
      assert (pre + x)[i] == pre[i];
      SpacesFromSpaces(pre, x, i + 1);
    }
    if i == |pre| && x != [] {
      assert (pre + x)[i] == x[0];
    }
  }

  lemma {:induction false} SpacesBeforeSpaces(x: string, post: string, j: nat)
    requires AllSpace(post) && (x == [] || !IsSpace(x[|x| - 1])) && |x| <= j <= |x| + |post|
    ensures SpacesBefore(x + post, j) == j - |x|
    decreases j
  {
    if j > |x| {
      assert (x + post)[j - 1] == post[j - 1 - |x|];
      SpacesBeforeSpaces(x, post, j - 1);
    }
    if j == |x| && x != [] {
      assert (x + post)[j - 1] == x[|x| - 1];
    }
  }

  lemma TrimLeftSpaces(pre: string, x: string)
    requires AllSpace(pre) && (x == [] || !IsSpace(x[0]))
    ensures TrimLeft(pre + x) == x
  {
    SpacesFromSpaces(pre, x, 0);
    assert (pre + x)[|pre|..] == x;
  }

  lemma TrimRightSpaces(x: string, post: string)
    requires AllSpace(post) && (x == [] || !IsSpace(x[|x| - 1]))
    ensures TrimRight(x + post) == x
  {
    SpacesBeforeSpaces(x, post, |x + post|);
    assert (x + post)[..|x|] == x;
  }

  /** Whitespace around a string with none at its ends is what `strip` removes. */
  lemma TrimSpaces(pre: string, x: string, post: string)
    requires AllSpace(pre) && AllSpace(post) && NoSpaceAtEnds(x)
    ensures Trim(pre + x + post) == x
  {
    if x == [] {
      assert pre + x + post == pre + post;
      assert AllSpace(pre + post);
      TrimLeftSpaces(pre + post, []);
      assert pre + post + [] == pre + post;
    } else {
      assert pre + x + post == pre + (x + post);
      TrimLeftSpaces(pre, x + post);
      TrimRightSpaces(x, post);
    }
  }

  /** Joining with `[c] + t` is joining with `[c]` after putting `t` in
      front of every piece but the first. */
  lemma {:induction false} JoinShift(parts: seq<string>, c: char, t: string)
    requires |parts| >= 1
    ensures Join(parts, [c] + t) ==
      Join([parts[0]] + seq(|parts| - 1, i requires 0 <= i < |parts| - 1 => t + parts[i + 1]), [c])
    decreases |parts|
  {
    var shifted := seq(|parts| - 1, i requires 0 <= i < |parts| - 1 => t + parts[i + 1]);
    if |parts| == 1 {
      assert [parts[0]] + shifted == [parts[0]];
    } else {
      var rest := parts[1..];
      JoinShift(rest, c, t);
      var shiftedRest := seq(|rest| - 1, i requires 0 <= i < |rest| - 1 => t + rest[i + 1]);
      assert shifted == [t + rest[0]] + shiftedRest;
      assert Join(parts, [c] + t) == parts[0] + ([c] + t) + Join(rest, [c] + t);
      JoinCons(parts[0], shifted, [c]);
      assert [parts[0]] + shifted == [parts[0]] + ([t + rest[0]] + shiftedRest);
      if |rest| == 1 {
        assert shiftedRest == [];
        assert Join(shifted, [c]) == t + rest[0];
      } else {
        JoinCons(t + rest[0], shiftedRest, [c]);
        JoinCons(rest[0], shiftedRest, [c]);
      }
    }
  }

  /** `(a + c + b).partition(c)` when `a` holds no `c`. */
  lemma PartitionFirstAt(a: string, c: char, b: string)
    requires c !in a
    ensures c in a + [c] + b && PartitionFirst(a + [c] + b, c) == (a, b)
  {
    var s := a + [c] + b;
    FindCharAfter(a, c, b);
    assert s[..|a|] == a;
    assert s[|a| + 1..] == b;
  }

  /** A string starts with itself, whatever follows it. */
  lemma StartsWithSelf(p: string, rest: string)
    ensures StartsWith(p + rest, p)
  {
    assert (p + rest)[..|p|] == p;
  }

  lemma NotStartsWithFirst(s: string, prefix: string)
    requires prefix != [] && s != [] && s[0] != prefix[0]
    ensures !StartsWith(s, prefix)
  {
    if |prefix| <= |s| {
      assert s[..|prefix|][0] == s[0];
    }
  }

  /** Replacing a pattern by itself changes nothing. */
  lemma {:induction false} ReplaceSame(s: string, pat: string)
    requires |pat| > 0
    ensures Replace(s, pat, pat) == s
    decreases |s|
  {
    if |s| > 0 {
      if StartsWith(s, pat) {
        ReplaceSame(s[|pat|..], pat);
        assert s == s[..|pat|] + s[|pat|..];
      } else {
        ReplaceSame(s[1..], pat);
        assert s == [s[0]] + s[1..];
      }
    }
  }
}
