/** The tag "#"-hiding script: `scan` applies the marker-checking
    `stripHash` to every matching span under a root, and the observer does
    the same for each added element and the matches below it. */
module TagHideHash {
  import opened TagSpans

  lemma StripHashIsIdempotent()
    ensures forall x :: StripHash(StripHash(x)) == StripHash(x)
  {
    forall x { StripHashIdempotent(x); }
  }

  /** `scan(root)`: `matched` are the indices of the spans
      `root.querySelectorAll(selector)` returns, in document order. */
  method Scan(spans: array<Span>, matched: seq<nat>)
    requires InRange(matched, spans.Length)
    modifies spans
    ensures spans[..] == ApplyAt(old(spans[..]), matched, StripHash)
  {
    var i := 0;
    while i < |matched|
      invariant 0 <= i <= |matched|
      invariant spans[..] == ApplyAt(old(spans[..]), matched[..i], StripHash)
    {
      ApplyAtSnoc(old(spans[..]), matched, StripHash, i);
      var j := matched[i];
      spans[j] := StripHash(spans[j]);
      i := i + 1;
    }
    assert matched[..i] == matched;
  }

  /** After a scan each matched span is stripped once and nothing else
      changed, even when a span is listed twice. */
  lemma {:induction false} ScanEffect(s: seq<Span>, matched: seq<nat>, i: nat)
    requires InRange(matched, |s|) && i < |s|
    ensures ApplyAt(s, matched, StripHash)[i] == if i in matched then StripHash(s[i]) else s[i]
  {
    StripHashIsIdempotent();
    ApplyAtIdempotent(s, matched, StripHash, i);
  }

  /** Scanning the same spans again changes nothing. */
  lemma {:induction false} RescanIsNoop(s: seq<Span>, matched: seq<nat>)
    requires InRange(matched, |s|)
    ensures ApplyAt(ApplyAt(s, matched, StripHash), matched, StripHash) == ApplyAt(s, matched, StripHash)
  {
    var once := ApplyAt(s, matched, StripHash);
    forall i | 0 <= i < |s|
      ensures ApplyAt(once, matched, StripHash)[i] == once[i]
    {
      ScanEffect(s, matched, i);
      ScanEffect(once, matched, i);
      StripHashIdempotent(s[i]);
    }
  }

  /** One added node: non-elements are ignored; an element is stripped
      itself if it matches, then its matching descendants are scanned. */
  method HandleAddedNode(spans: array<Span>, node: AddedNode)
    requires InRange(NodeTargets(node), spans.Length)
    modifies spans
    ensures spans[..] == ApplyAt(old(spans[..]), NodeTargets(node), StripHash)
  {
    match node
    case NonElement =>
      return;
    case Element(self, below) =>
      var head: seq<nat> := if self.Some? then [self.value] else [];
      assert NodeTargets(node) == head + below;
      assert forall k :: 0 <= k < |below| ==> below[k] == NodeTargets(node)[|head| + k];
      assert forall k :: 0 <= k < |head| ==> head[k] == NodeTargets(node)[k];
      ApplyAtAppend(old(spans[..]), head, below, StripHash);
      if self.Some? {
        spans[self.value] := StripHash(spans[self.value]);
        assert head[..0] == [];
      }
      assert spans[..] == ApplyAt(old(spans[..]), head, StripHash);
      Scan(spans, below);
  }

  /** The observer callback over a batch of mutation records. */
  method OnMutations(spans: array<Span>, mutations: seq<seq<AddedNode>>)
    requires BatchInRange(mutations, spans.Length)
    modifies spans
    ensures InRange(BatchTargets(mutations), spans.Length)
    ensures spans[..] == ApplyAt(old(spans[..]), BatchTargets(mutations), StripHash)
  {
    BatchInRangeTargets(mutations, spans.Length);
    var i := 0;
    while i < |mutations|
      invariant 0 <= i <= |mutations|
      invariant BatchInRange(mutations[..i], spans.Length)
      invariant InRange(BatchTargets(mutations[..i]), spans.Length)
      invariant spans[..] == ApplyAt(old(spans[..]), BatchTargets(mutations[..i]), StripHash)
    {
      var nodes := mutations[i];
      ghost var before := spans[..];
      assert mutations[..i + 1][..i] == mutations[..i];
      var j := 0;
      while j < |nodes|
        invariant 0 <= j <= |nodes|
        invariant InRange(NodesTargets(nodes[..j]), spans.Length)
        invariant spans[..] == ApplyAt(before, NodesTargets(nodes[..j]), StripHash)
      {
        assert nodes[..j + 1][..j] == nodes[..j];
        assert NodesTargets(nodes[..j + 1]) == NodesTargets(nodes[..j]) + NodeTargets(nodes[j]);
        ApplyAtAppend(before, NodesTargets(nodes[..j]), NodeTargets(nodes[j]), StripHash);
        HandleAddedNode(spans, nodes[j]);
        j := j + 1;
      }
      assert nodes[..j] == nodes;
      assert BatchTargets(mutations[..i + 1]) == BatchTargets(mutations[..i]) + NodesTargets(nodes);
      ApplyAtAppend(old(spans[..]), BatchTargets(mutations[..i]), NodesTargets(nodes), StripHash);
      i := i + 1;
    }
    assert mutations[..i] == mutations;
  }

  /** `run`: the first scan over the whole body. */
  method Run(spans: array<Span>)
    modifies spans
    ensures forall i :: 0 <= i < spans.Length ==> spans[i] == StripHash(old(spans[i]))
  {
    var all := seq(spans.Length, k requires 0 <= k < spans.Length => k as nat);
    assert forall i :: 0 <= i < spans.Length ==> all[i] == i;
    Scan(spans, all);
    forall i | 0 <= i < spans.Length ensures spans[i] == StripHash(old(spans[i])) {
      ScanEffect(old(spans[..]), all, i);
      assert all[i] == i && old(spans[..])[i] == old(spans[i]);
    }
  }
}
