/** The selector-header scan: it finds the rule headers that span several
    physical lines (from the first line that is not a comment or blank up
    to the first line holding `{`), sorts them longest first and reports
    the long ones. */
module HeaderScan {
  import opened Wrappers
  import opened Strings
  import opened Sorting

  /** How many characters of a header the preview keeps. */
  const PREVIEW_LIMIT: nat := 240
  /** Headers shorter than this many lines are not reported. */
  const MIN_LINES: nat := 8
  /** How many headers the report lists at most. */
  const MAX_SHOWN: nat := 25

  /** `is_comment_or_blank`. */
  predicate IsCommentOrBlank(s: string) {
    var ss := Trim(s);
    ss == [] || StartsWith(ss, "/*") || StartsWith(ss, "*") || StartsWith(ss, "*/")
  }

  /** The test comes down to "blank, or starts with a star or with slash-star":
      a line such as `* {` (a universal selector) counts as a comment. */
  lemma CommentOrBlankIff(s: string)
    ensures IsCommentOrBlank(s) <==> Trim(s) == [] || Trim(s)[0] == '*' || (|Trim(s)| >= 2 && Trim(s)[..2] == "/*")
  {
    CommentStartIff(Trim(s));
  }

  lemma CommentStartIff(ss: string)
    ensures (ss == [] || StartsWith(ss, "/*") || StartsWith(ss, "*") || StartsWith(ss, "*/")) <==>
      ss == [] || ss[0] == '*' || (|ss| >= 2 && ss[..2] == "/*")
  {
    if ss != [] {
      assert StartsWith(ss, "*") <==> ss[0] == '*' by {
        assert "*"[0] == '*';
        if ss[0] == '*' {
          assert ss[..1] == "*";
        }
      }
      if StartsWith(ss, "*/") {
        assert ss[0] == "*/"[0];
      }
    }
  }

  /** A recorded header: `(selector_header_lines, start, i, preview)`. */
  datatype Header = Header(n: nat, start: nat, end: nat, preview: string)

  /** `s.replace("\t", " ")`. */
  lemma {:induction false} NoTabAfterReplace(s: string)
    ensures '\t' !in Replace(s, "\t", " ")
    ensures |Replace(s, "\t", " ")| == |s|
    decreases |s|
  {
    if |s| > 0 {
      NoTabAfterReplace(s[1..]);
    }
  }

  function Concat(ls: seq<string>): string
    decreases |ls|
  {
    if ls == [] then [] else Concat(ls[..|ls| - 1]) + ls[|ls| - 1]
  }

  /** `"".join(sel_lines).strip().replace("\t", " ")[:240]`. */
  function Preview(ls: seq<string>): string {
    Take(Replace(Trim(Concat(ls)), "\t", " "), PREVIEW_LIMIT)
  }

  /** The preview is at most 240 characters long and holds no tab. */
  lemma PreviewSpec(ls: seq<string>)
    ensures |Preview(ls)| <= PREVIEW_LIMIT
    ensures '\t' !in Preview(ls)
  {
    var r := Replace(Trim(Concat(ls)), "\t", " ");
    NoTabAfterReplace(Trim(Concat(ls)));
    assert Preview(ls) == r[..|Preview(ls)|];
    assert forall c :: c in r[..|Preview(ls)|] ==> c in r;
  }

  // ---------------------------------------------------------------------
  // The scan.

  /** The loop variables: `start`, `sel_lines` and `blocks`. */
  datatype ScanState = ScanState(start: Option<nat>, selLines: seq<string>, blocks: seq<Header>)

  /** What line `i` (counted from 1) does to the state; `skip` is the test
      for lines that cannot open a header and `preview` makes a header's
      preview from its lines (`IsCommentOrBlank` and `Preview` in `main`). */
  function Step(skip: string -> bool, preview: seq<string> -> string, st: ScanState, i: nat, line: string): ScanState {
    if st.start.None? && skip(line) then st
    else
      var start := if st.start.None? then i else st.start.value;
      var sel := if st.start.None? then [line] else st.selLines + [line];
      if '{' in line then ScanState(None, [], st.blocks + [Header(|sel|, start, i, preview(sel))])
      else ScanState(Some(start), sel, st.blocks)
  }

  /** The state after the first `k` lines. */
  function ScanUpTo(skip: string -> bool, preview: seq<string> -> string, lines: seq<string>, k: nat): ScanState
    requires k <= |lines|
  {
    if k == 0 then ScanState(None, [], []) else Step(skip, preview, ScanUpTo(skip, preview, lines, k - 1), k, lines[k - 1])
  }

  /** The loop of `main` over the file's lines, with `skip` as the test for
      lines that cannot open a header and `preview` as the preview of a
      header's lines (`main` uses `IsCommentOrBlank` and `Preview`). */
  method Scan(skip: string -> bool, preview: seq<string> -> string, lines: seq<string>) returns (blocks: seq<Header>)
    ensures blocks == ScanUpTo(skip, preview, lines, |lines|).blocks
  {
    var st := ScanState(None, [], []);
    var k := 0;
    while k < |lines|
      invariant k <= |lines|
      invariant st == ScanUpTo(skip, preview, lines, k)
    {
      st := ScanLine(skip, preview, lines, k + 1, st);
      k := k + 1;
    }
    blocks := st.blocks;
  }

  /** One turn of the loop: line `i` (counted from 1). */
  method ScanLine(skip: string -> bool, preview: seq<string> -> string, lines: seq<string>, i: nat, st0: ScanState) returns (st: ScanState)
    requires 1 <= i <= |lines| && st0 == ScanUpTo(skip, preview, lines, i - 1)
    ensures st == ScanUpTo(skip, preview, lines, i)
  {
    var line := lines[i - 1];
    var start := st0.start;
    var selLines := st0.selLines;
    var blocks := st0.blocks;
    var skipped := false;
    if start.None? {
      if skip(line) {
        skipped := true;
      } else {
        start := Some(i);
        selLines := [line];
      }
    } else {
      selLines := selLines + [line];
    }
    if !skipped && '{' in line {
      blocks := blocks + [Header(|selLines|, start.value, i, preview(selLines))];
      start := None;
      selLines := [];
    }
    st := ScanState(start, selLines, blocks);
  }

  /** None of the lines with 0-based index in `[a, b)` holds `{`. */
  predicate NoBrace(lines: seq<string>, a: nat, b: nat)
    requires a <= b <= |lines|
  {
    forall j :: a <= j < b ==> '{' !in lines[j]
  }

  /** Header `h` covers lines `h.start` to `h.end`: it opens on a line that
      is not a comment or blank, only its last line holds `{`, its count is
      the number of lines it spans and its preview is made of those lines. */
  predicate WellFormed(skip: string -> bool, preview: seq<string> -> string, lines: seq<string>, h: Header) {
    1 <= h.start <= h.end <= |lines| &&
    h.n == h.end - h.start + 1 &&
    !skip(lines[h.start - 1]) &&
    '{' in lines[h.end - 1] &&
    NoBrace(lines, h.start - 1, h.end - 1) &&
    h.preview == preview(lines[h.start - 1..h.end])
  }

  /** Headers come in file order and do not overlap. */
  predicate Ordered(bs: seq<Header>) {
    forall a, b :: 0 <= a < b < |bs| ==> bs[a].end < bs[b].start
  }

  /** Every header is well formed and ends within the first `k` lines. */
  predicate AllWellFormed(skip: string -> bool, preview: seq<string> -> string, lines: seq<string>, bs: seq<Header>, k: nat) {
    forall b :: 0 <= b < |bs| ==> WellFormed(skip, preview, lines, bs[b]) && bs[b].end <= k
  }

  /** Every header ends before line `s`. */
  predicate EndBefore(bs: seq<Header>, s: nat) {
    forall b :: 0 <= b < |bs| ==> bs[b].end < s
  }

  /** A header opened on line `s` and still without `{` after `k` lines. */
  predicate Pending(skip: string -> bool, preview: seq<string> -> string, lines: seq<string>, k: nat, s: nat, sel: seq<string>)
    requires k <= |lines|
  {
    1 <= s <= k && sel == lines[s - 1..k] && !skip(lines[s - 1]) && NoBrace(lines, s - 1, k)
  }

  /** The state after `k` lines: the headers so far are well formed and
      ordered; a pending header starts after the last one and has no `{`
      yet. */
  predicate Inv(skip: string -> bool, preview: seq<string> -> string, lines: seq<string>, k: nat, st: ScanState)
    requires k <= |lines|
  {
    AllWellFormed(skip, preview, lines, st.blocks, k) && Ordered(st.blocks) &&
    (st.start.Some? ==> Pending(skip, preview, lines, k, st.start.value, st.selLines) && EndBefore(st.blocks, st.start.value)) &&
    (st.start.None? ==> st.selLines == [])
  }

  lemma AppendHeader(skip: string -> bool, preview: seq<string> -> string, lines: seq<string>, k: nat, bs: seq<Header>, h: Header)
    requires 0 < k && AllWellFormed(skip, preview, lines, bs, k - 1) && Ordered(bs) && EndBefore(bs, h.start)
    requires WellFormed(skip, preview, lines, h) && h.end == k
    ensures AllWellFormed(skip, preview, lines, bs + [h], k) && Ordered(bs + [h])
  {
    var bs' := bs + [h];
    forall b | 0 <= b < |bs'| ensures WellFormed(skip, preview, lines, bs'[b]) && bs'[b].end <= k {
      if b < |bs| {
        assert bs'[b] == bs[b];
      } else {
        assert bs'[b] == h;
      }
    }
    AppendOrdered(bs, h);
  }

  lemma AppendOrdered(bs: seq<Header>, h: Header)
    requires Ordered(bs) && EndBefore(bs, h.start)
    ensures Ordered(bs + [h])
  {
    var bs' := bs + [h];
    forall a, b | 0 <= a < b < |bs'| ensures bs'[a].end < bs'[b].start {
      assert bs'[a] == bs[a];
      if b < |bs| {
        assert bs'[b] == bs[b];
      }
    }
  }

  lemma OpenStep(skip: string -> bool, preview: seq<string> -> string, lines: seq<string>, k: nat, st: ScanState)
    requires 0 < k <= |lines| && Inv(skip, preview, lines, k - 1, st)
    requires st.start.None? && !skip(lines[k - 1]) && '{' !in lines[k - 1]
    ensures Inv(skip, preview, lines, k, Step(skip, preview, st, k, lines[k - 1]))
  {
    assert lines[k - 1..k] == [lines[k - 1]];
  }

  lemma ExtendStep(skip: string -> bool, preview: seq<string> -> string, lines: seq<string>, k: nat, st: ScanState)
    requires 0 < k <= |lines| && Inv(skip, preview, lines, k - 1, st)
    requires st.start.Some? && '{' !in lines[k - 1]
    ensures Inv(skip, preview, lines, k, Step(skip, preview, st, k, lines[k - 1]))
  {
    var s := st.start.value;
    assert lines[s - 1..k] == lines[s - 1..k - 1] + [lines[k - 1]];
  }

  lemma NewHeader(skip: string -> bool, preview: seq<string> -> string, lines: seq<string>, k: nat, start: nat)
    requires 1 <= start <= k <= |lines| && !skip(lines[start - 1])
    requires NoBrace(lines, start - 1, k - 1) && '{' in lines[k - 1]
    ensures WellFormed(skip, preview, lines, Header(k - start + 1, start, k, preview(lines[start - 1..k])))
  {
    var h := Header(k - start + 1, start, k, preview(lines[start - 1..k]));
    assert h.start == start && h.end == k;
    assert NoBrace(lines, h.start - 1, h.end - 1);
  }

  lemma AllEndBefore(skip: string -> bool, preview: seq<string> -> string, lines: seq<string>, bs: seq<Header>, k: nat)
    requires 0 < k && AllWellFormed(skip, preview, lines, bs, k - 1)
    ensures EndBefore(bs, k)
  {
  }

  /** Line `k` holds `{` and closes the header opened on line `start`. */
  lemma CloseStep(skip: string -> bool, preview: seq<string> -> string, lines: seq<string>, k: nat, bs: seq<Header>, start: nat, sel: seq<string>)
    requires 0 < k <= |lines| && AllWellFormed(skip, preview, lines, bs, k - 1) && Ordered(bs) && EndBefore(bs, start)
    requires 1 <= start <= k && sel == lines[start - 1..k] && !skip(lines[start - 1])
    requires NoBrace(lines, start - 1, k - 1) && '{' in lines[k - 1]
    ensures Inv(skip, preview, lines, k, ScanState(None, [], bs + [Header(|sel|, start, k, preview(sel))]))
  {
    NewHeader(skip, preview, lines, k, start);
    AppendHeader(skip, preview, lines, k, bs, Header(|sel|, start, k, preview(sel)));
  }

  lemma StepInv(skip: string -> bool, preview: seq<string> -> string, lines: seq<string>, k: nat, st: ScanState)
    requires 0 < k <= |lines| && Inv(skip, preview, lines, k - 1, st)
    ensures Inv(skip, preview, lines, k, Step(skip, preview, st, k, lines[k - 1]))
  {
    var line := lines[k - 1];
    if st.start.None? && skip(line) {
    } else if '{' in line && st.start.None? {
      AllEndBefore(skip, preview, lines, st.blocks, k);
      assert [line] == lines[k - 1..k];
      CloseStep(skip, preview, lines, k, st.blocks, k, [line]);
    } else if '{' in line {
      var s := st.start.value;
      assert st.selLines + [line] == lines[s - 1..k];
      CloseStep(skip, preview, lines, k, st.blocks, s, st.selLines + [line]);
    } else if st.start.None? {
      OpenStep(skip, preview, lines, k, st);
    } else {
      ExtendStep(skip, preview, lines, k, st);
    }
  }

  lemma {:induction false} ScanInv(skip: string -> bool, preview: seq<string> -> string, lines: seq<string>, k: nat)
    requires k <= |lines|
    ensures Inv(skip, preview, lines, k, ScanUpTo(skip, preview, lines, k))
  {
    if k > 0 {
      ScanInv(skip, preview, lines, k - 1);
      StepInv(skip, preview, lines, k, ScanUpTo(skip, preview, lines, k - 1));
    }
  }

  /** Every recorded header is well formed, and they come in file order;
      a header still open at the end of the file, with no `{`, is not
      among them. */
  lemma ScanSpec(skip: string -> bool, preview: seq<string> -> string, lines: seq<string>)
    ensures forall b :: 0 <= b < |ScanUpTo(skip, preview, lines, |lines|).blocks| ==> WellFormed(skip, preview, lines, ScanUpTo(skip, preview, lines, |lines|).blocks[b])
    ensures Ordered(ScanUpTo(skip, preview, lines, |lines|).blocks)
    ensures var st := ScanUpTo(skip, preview, lines, |lines|);
      st.start.Some? ==> forall b :: 0 <= b < |st.blocks| ==> st.blocks[b].end < st.start.value
  {
    ScanInv(skip, preview, lines, |lines|);
  }

  /** A file whose last line without `{` opens a header records nothing
      for it: a single line `a,` gives no header. */
  lemma PartialHeaderDropped(line: string)
    requires !IsCommentOrBlank(line) && '{' !in line
    ensures ScanUpTo(IsCommentOrBlank, Preview, [line], 1).blocks == []
    ensures ScanUpTo(IsCommentOrBlank, Preview, [line], 1).start == Some(1)
  {
  }

  /** A one-line rule header gives a header of one line. */
  lemma OneLineHeader(line: string)
    requires !IsCommentOrBlank(line) && '{' in line
    ensures ScanUpTo(IsCommentOrBlank, Preview, [line], 1).blocks == [Header(1, 1, 1, Preview([line]))]
  {
  }

  // ---------------------------------------------------------------------
  // Sorting and reporting.

  /** `blocks.sort(reverse=True)`: tuples compared field by field, larger
      first. */
  predicate HeaderGe(a: Header, b: Header) {
    a.n > b.n || (a.n == b.n &&
      (a.start > b.start || (a.start == b.start &&
        (a.end > b.end || (a.end == b.end && StrLe(b.preview, a.preview))))))
  }

  lemma HeaderGeTotal()
    ensures TotalPreorder(HeaderGe)
  {
    forall a: Header, b: Header ensures HeaderGe(a, b) || HeaderGe(b, a) {
      StrLeTotal(a.preview, b.preview);
    }
    forall a: Header, b: Header, c: Header | HeaderGe(a, b) && HeaderGe(b, c) ensures HeaderGe(a, c) {
      if a.n == b.n == c.n && a.start == b.start == c.start && a.end == b.end == c.end {
        StrLeTrans(c.preview, b.preview, a.preview);
      }
    }
  }

  /** After sorting the headers come longest first, and none is lost. */
  lemma SortedHeaders(blocks: seq<Header>)
    ensures multiset(Sort(blocks, HeaderGe)) == multiset(blocks)
    ensures forall i, j :: 0 <= i < j < |blocks| ==> Sort(blocks, HeaderGe)[i].n >= Sort(blocks, HeaderGe)[j].n
  {
    HeaderGeTotal();
    SortSorted(blocks, HeaderGe);
  }

  /** The headers `main` prints: the leading run of headers with at least
      eight lines, at most 25 of them. */
  function Shown(blocks: seq<Header>): seq<Header> {
    Take(LongRun(blocks), MAX_SHOWN)
  }

  /** The leading headers with at least eight lines, up to the first
      shorter one. */
  function LongRun(blocks: seq<Header>): (r: seq<Header>)
    ensures |r| <= |blocks| && r == blocks[..|r|]
    ensures forall k :: 0 <= k < |r| ==> r[k].n >= MIN_LINES
    ensures |r| < |blocks| ==> blocks[|r|].n < MIN_LINES
    decreases |blocks|
  {
    if blocks == [] || blocks[0].n < MIN_LINES then []
    else [blocks[0]] + LongRun(blocks[1..])
  }

  /** At most 25 headers are printed, all of at least eight lines, in the
      sorted order; printing stops at the 25th or before the first shorter
      header. */
  lemma ShownSpec(blocks: seq<Header>)
    ensures |Shown(blocks)| <= MAX_SHOWN
    ensures Shown(blocks) == blocks[..|Shown(blocks)|]
    ensures forall k :: 0 <= k < |Shown(blocks)| ==> Shown(blocks)[k].n >= MIN_LINES
    ensures |Shown(blocks)| < MAX_SHOWN && |Shown(blocks)| < |blocks| ==> blocks[|Shown(blocks)|].n < MIN_LINES
  {
  }

  /** On the sorted list, no header of eight lines or more is missed
      unless 25 are already shown. */
  lemma {:induction false} ShownComplete(blocks: seq<Header>, h: Header)
    requires forall i, j :: 0 <= i < j < |blocks| ==> blocks[i].n >= blocks[j].n
    requires h in blocks && h.n >= MIN_LINES
    ensures h in LongRun(blocks)
    decreases |blocks|
  {
    if blocks[0] != h {
      assert blocks[0].n >= h.n by {
        var j :| 0 <= j < |blocks| && blocks[j] == h;
      }
      assert h in blocks[1..];
      ShownComplete(blocks[1..], h);
    }
  }

  /** The reporting loop of `main`. */
  method Report(blocks: seq<Header>) returns (shown: seq<Header>)
    ensures shown == Shown(blocks)
  {
    shown := [];
    var i := 0;
    while i < |blocks|
      invariant 0 <= i <= |blocks|
      invariant shown == blocks[..i] && |shown| < MAX_SHOWN
      invariant forall k :: 0 <= k < i ==> blocks[k].n >= MIN_LINES
      decreases |blocks| - i
    {
      if blocks[i].n < MIN_LINES {
        break;
      }
      shown := shown + [blocks[i]];
      i := i + 1;
      if |shown| >= MAX_SHOWN {
        break;
      }
    }
    ReportEnd(blocks, i);
  }

  /** Where the reporting loop stops, it has the shown headers. */
  lemma {:induction false} ReportEnd(blocks: seq<Header>, i: nat)
    requires i <= |blocks| && i <= MAX_SHOWN
    requires forall k :: 0 <= k < i ==> blocks[k].n >= MIN_LINES
    requires i == |blocks| || i == MAX_SHOWN || blocks[i].n < MIN_LINES
    ensures blocks[..i] == Shown(blocks)
  {
    LongRunPrefix(blocks, i);
  }

  lemma {:induction false} LongRunPrefix(blocks: seq<Header>, i: nat)
    requires i <= |blocks|
    requires forall k :: 0 <= k < i ==> blocks[k].n >= MIN_LINES
    ensures |LongRun(blocks)| >= i
    decreases i
  {
    if i > 0 {
      LongRunPrefix(blocks[1..], i - 1);
    }
  }

  /** Every printed header is a well-formed header of the file with at
      least eight lines. */
  lemma ReportedSound(lines: seq<string>, bs: seq<Header>, h: Header)
    requires bs == ScanUpTo(IsCommentOrBlank, Preview, lines, |lines|).blocks
    requires h in Shown(Sort(bs, HeaderGe))
    ensures WellFormed(IsCommentOrBlank, Preview, lines, h) && h.n >= MIN_LINES
  {
    ShownFrom(bs, h);
    ScannedWellFormed(IsCommentOrBlank, Preview, lines, h);
  }

  lemma ScannedWellFormed(skip: string -> bool, preview: seq<string> -> string, lines: seq<string>, h: Header)
    requires h in ScanUpTo(skip, preview, lines, |lines|).blocks
    ensures WellFormed(skip, preview, lines, h)
  {
    var bs := ScanUpTo(skip, preview, lines, |lines|).blocks;
    ScanSpec(skip, preview, lines);
    var j :| 0 <= j < |bs| && bs[j] == h;
  }

  /** A printed header is one of the scanned headers. */
  lemma ShownFrom(bs: seq<Header>, h: Header)
    requires h in Shown(Sort(bs, HeaderGe))
    ensures h in bs && h.n >= MIN_LINES
  {
    var sorted := Sort(bs, HeaderGe);
    SortedHeaders(bs);
    ShownSpec(sorted);
    var i :| 0 <= i < |Shown(sorted)| && Shown(sorted)[i] == h;
    assert sorted[i] == h;
    assert h in multiset(bs);
  }

  /** While fewer than 25 headers are printed, every header of eight lines
      or more is printed. */
  lemma ReportedComplete(lines: seq<string>, bs: seq<Header>, h: Header)
    requires bs == ScanUpTo(IsCommentOrBlank, Preview, lines, |lines|).blocks
    requires h in bs && h.n >= MIN_LINES && |Shown(Sort(bs, HeaderGe))| < MAX_SHOWN
    ensures h in Shown(Sort(bs, HeaderGe))
  {
    var sorted := Sort(bs, HeaderGe);
    SortedHeaders(bs);
    assert h in multiset(sorted);
    ShownComplete(sorted, h);
  }

  /** `main` without the file I/O and the printing: the headers it prints. */
  method Run(lines: seq<string>) returns (shown: seq<Header>)
    ensures shown == Shown(Sort(ScanUpTo(IsCommentOrBlank, Preview, lines, |lines|).blocks, HeaderGe))
  {
    var blocks := Scan(IsCommentOrBlank, Preview, lines);
    blocks := Sort(blocks, HeaderGe);
    shown := Report(blocks);
  }
}
