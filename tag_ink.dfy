/** The "Hidden Path" tag script. Its `scan` and its observer strip a
    leading "#" from every matching span WITHOUT looking at the
    `data-tag-hash-hidden` marker; the marker-checking `stripHash` it also
    defines (the same code as `TagSpans.StripHash`) is never called. The
    mousedown listener for the ink pulse is registered once per window. */
module TagInk {
  import opened Wrappers
  import opened TagSpans

  /** The strip `scan` and the observer perform inline. */
  function StripUnchecked(s: Span): (r: Span)
    ensures s.text != [] && s.text[0] == '#' ==> [s.text[0]] + r.text == s.text && r.marker == Some("true")
    ensures s.text == [] || s.text[0] != '#' ==> r == s
  {
    if s.text != [] && s.text[0] == '#' then
      assert s.text == [s.text[0]] + s.text[1..];
      Span(s.text[1..], Some("true"))
    else s
  }

  /** On an unmarked span the inline strip agrees with `stripHash`; on a
      marked span whose text still starts with "#" it does not. */
  lemma StripUncheckedVersusStripHash(s: Span)
    ensures s.marker.None? ==> StripUnchecked(s) == StripHash(s)
    ensures s.marker.Some? && s.text != [] && s.text[0] == '#' ==> StripUnchecked(s) != StripHash(s)
  {
    if s.marker.Some? && s.text != [] && s.text[0] == '#' {
      assert |StripUnchecked(s).text| < |s.text|;
    }
  }

  /** `scan(root)` over the spans `querySelectorAll` returns at `matched`. */
  method Scan(spans: array<Span>, matched: seq<nat>)
    requires InRange(matched, spans.Length)
    modifies spans
    ensures spans[..] == ApplyAt(old(spans[..]), matched, StripUnchecked)
  {
    var i := 0;
    while i < |matched|
      invariant 0 <= i <= |matched|
      invariant spans[..] == ApplyAt(old(spans[..]), matched[..i], StripUnchecked)
    {
      ApplyAtSnoc(old(spans[..]), matched, StripUnchecked, i);
      var j := matched[i];
      var text := spans[j].text;
      if text != [] && text[0] == '#' {
        spans[j] := Span(text[1..], Some("true"));
      }
      i := i + 1;
    }
    assert matched[..i] == matched;
  }

  /** `querySelectorAll` lists each element once, so one scan strips each
      matching span exactly once, whatever its marker says. */
  lemma {:induction false} ScanEffect(s: seq<Span>, matched: seq<nat>, i: nat)
    requires InRange(matched, |s|) && Distinct(matched) && i < |s|
    ensures ApplyAt(s, matched, StripUnchecked)[i] == if i in matched then StripUnchecked(s[i]) else s[i]
  {
    ApplyAtDistinct(s, matched, StripUnchecked, i);
  }

  /** Two scans over a span with text "##x" leave "x": the marker written
      by the first scan does not stop the second. The marker-checking
      `StripHash` would leave "#x". */
  lemma TwoScansOnDoubleHash()
    ensures var s := [Span("##x", None)];
      ApplyAt(ApplyAt(s, [0], StripUnchecked), [0], StripUnchecked) == [Span("x", Some("true"))] &&
      ApplyAt(ApplyAt(s, [0], StripHash), [0], StripHash) == [Span("#x", Some("true"))]
  {
    var s := [Span("##x", None)];
    assert [0][..0] == [];
    assert "##x"[1..] == "#x" && "#x"[1..] == "x";
    assert ApplyAt(s, [0], StripUnchecked) == [Span("#x", Some("true"))];
    assert ApplyAt(s, [0], StripHash) == [Span("#x", Some("true"))];
  }

  /** One added node in the observer: a non-element is skipped; an element
      that matches is stripped inline, then its descendants are scanned. */
  method HandleAddedNode(spans: array<Span>, node: AddedNode)
    requires InRange(NodeTargets(node), spans.Length)
    modifies spans
    ensures spans[..] == ApplyAt(old(spans[..]), NodeTargets(node), StripUnchecked)
  {
    match node
    case NonElement =>
      return;
    case Element(self, below) =>
      var head: seq<nat> := if self.Some? then [self.value] else [];
      assert NodeTargets(node) == head + below;
      assert forall k :: 0 <= k < |below| ==> below[k] == NodeTargets(node)[|head| + k];
      assert forall k :: 0 <= k < |head| ==> head[k] == NodeTargets(node)[k];
      ApplyAtAppend(old(spans[..]), head, below, StripUnchecked);
      if self.Some? {
        var text := spans[self.value].text;
        if text != [] && text[0] == '#' {
          spans[self.value] := Span(text[1..], Some("true"));
        }
        assert head[..0] == [];
      }
      assert spans[..] == ApplyAt(old(spans[..]), head, StripUnchecked);
      Scan(spans, below);
  }

  /** The observer callback over a batch of mutation records. */
  method OnMutations(spans: array<Span>, mutations: seq<seq<AddedNode>>)
    requires BatchInRange(mutations, spans.Length)
    modifies spans
    ensures InRange(BatchTargets(mutations), spans.Length)
    ensures spans[..] == ApplyAt(old(spans[..]), BatchTargets(mutations), StripUnchecked)
  {
    BatchInRangeTargets(mutations, spans.Length);
    var i := 0;
    while i < |mutations|
      invariant 0 <= i <= |mutations|
      invariant InRange(BatchTargets(mutations[..i]), spans.Length)
      invariant spans[..] == ApplyAt(old(spans[..]), BatchTargets(mutations[..i]), StripUnchecked)
    {
      var nodes := mutations[i];
      ghost var before := spans[..];
      assert mutations[..i + 1][..i] == mutations[..i];
      var j := 0;
      while j < |nodes|
        invariant 0 <= j <= |nodes|
        invariant InRange(NodesTargets(nodes[..j]), spans.Length)
        invariant spans[..] == ApplyAt(before, NodesTargets(nodes[..j]), StripUnchecked)
      {
        assert nodes[..j + 1][..j] == nodes[..j];
        assert NodesTargets(nodes[..j + 1]) == NodesTargets(nodes[..j]) + NodeTargets(nodes[j]);
        ApplyAtAppend(before, NodesTargets(nodes[..j]), NodeTargets(nodes[j]), StripUnchecked);
        HandleAddedNode(spans, nodes[j]);
        j := j + 1;
      }
      assert nodes[..j] == nodes;
      assert BatchTargets(mutations[..i + 1]) == BatchTargets(mutations[..i]) + NodesTargets(nodes);
      ApplyAtAppend(old(spans[..]), BatchTargets(mutations[..i]), NodesTargets(nodes), StripUnchecked);
      i := i + 1;
    }
    assert mutations[..i] == mutations;
  }

  /** The window state the script touches: `window.hiddenPathInited` and
      the number of mousedown listeners it has registered. */
  class InkWindow {
    var inited: bool
    var listeners: nat

    constructor ()
      ensures !inited && listeners == 0
    {
      inited, listeners := false, 0;
    }

    /** A listener is registered at most once per window. */
    predicate Valid()
      reads this
    {
      listeners == if inited then 1 else 0
    }

    /** `initInkPulse`: returns at once once the flag is set; otherwise
        registers the listener and sets the flag. */
    method InitInkPulse()
      requires Valid()
      modifies this
      ensures Valid() && inited
      ensures listeners == 1
      ensures old(inited) ==> listeners == old(listeners)
    {
      if inited {
        return;
      }
      listeners := listeners + 1;
      inited := true;
    }

    /** `run`: set up the listener, then the first scan of the body. */
    method Run(spans: array<Span>)
      requires Valid()
      modifies this, spans
      ensures Valid() && inited && listeners == 1
      ensures forall i :: 0 <= i < spans.Length ==> spans[i] == StripUnchecked(old(spans[i]))
    {
      InitInkPulse();
      var all := seq(spans.Length, k requires 0 <= k < spans.Length => k as nat);
      assert forall k, l :: 0 <= k < l < |all| ==> all[k] != all[l];
      Scan(spans, all);
      forall i | 0 <= i < spans.Length ensures spans[i] == StripUnchecked(old(spans[i])) {
        ScanEffect(old(spans[..]), all, i);
        assert all[i] == i && old(spans[..])[i] == old(spans[i]);
      }
    }
  }

  /** The script evaluated any number of times in one window leaves one listener. */
  method RunRepeatedly(w: InkWindow, spans: array<Span>, times: nat)
    requires w.Valid()
    modifies w, spans
    ensures w.Valid() && w.listeners <= 1
    ensures times > 0 ==> w.listeners == 1
  {
    var k := 0;
    while k < times
      invariant 0 <= k <= times && w.Valid()
      invariant k > 0 ==> w.listeners == 1
    {
      w.Run(spans);
      k := k + 1;
    }
  }
}
