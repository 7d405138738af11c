/** The tag spans both tag scripts work on (`span.rm-page-ref--tag,
    span[data-tag]`), and what "apply a patch to these spans in this order"
    means. The document's matching spans are an array; a scan or an observer
    callback reaches them by index. */
module TagSpans {
  import opened Wrappers

  const ATTR: string := "data-tag-hash-hidden"

  /** A tag span: its text content and the value of its
      `data-tag-hash-hidden` attribute (None when absent). */
  datatype Span = Span(text: string, marker: Option<string>)

  /** An added node seen by a tag observer: a non-element, or an element
      with the index of the span it is (when it matches the selector) and
      the indices of the matching spans below it, in document order. */
  datatype AddedNode = NonElement | Element(self: Option<nat>, below: seq<nat>)

  /** `stripHash` (the marker-checking version): a marked span is left
      alone; an unmarked one whose text starts with "#" loses that first
      character and is marked "true". */
  function StripHash(s: Span): Span {
    if s.marker.Some? then s
    else if s.text == [] || s.text[0] != '#' then s
    else Span(s.text[1..], Some("true"))
  }

  lemma StripHashCases(s: Span)
    ensures s.marker.Some? ==> StripHash(s) == s
    ensures s.text == [] || s.text[0] != '#' ==> StripHash(s) == s && StripHash(s).marker == s.marker
    ensures s.marker.None? && s.text != [] && s.text[0] == '#' ==>
      [s.text[0]] + StripHash(s).text == s.text && StripHash(s).marker == Some("true")
  {
  }

  /** Stripping twice is stripping once, also for text such as "##x". */
  lemma StripHashIdempotent(s: Span)
    ensures StripHash(StripHash(s)) == StripHash(s)
  {
  }

  lemma StripHashOnDoubleHash()
    ensures StripHash(StripHash(Span("##x", None))) == Span("#x", Some("true"))
  {
    assert "##x"[1..] == "#x";
  }

  predicate InRange(targets: seq<nat>, n: nat) {
    forall k :: 0 <= k < |targets| ==> targets[k] < n
  }

  predicate Distinct(targets: seq<nat>) {
    forall k, l :: 0 <= k < l < |targets| ==> targets[k] != targets[l]
  }

  /** `f` applied in place to the spans at `targets`, one after the other. */
  function ApplyAt(s: seq<Span>, targets: seq<nat>, f: Span -> Span): (r: seq<Span>)
    requires InRange(targets, |s|)
    ensures |r| == |s|
    decreases |targets|
  {
    if targets == [] then s
    else
      var p := ApplyAt(s, targets[..|targets| - 1], f);
      var last := targets[|targets| - 1];
      p[last := f(p[last])]
  }

  /** For a patch that is idempotent, applying it along `targets` patches
      exactly the targeted spans once, repetitions or not. */
  lemma {:induction false} ApplyAtIdempotent(s: seq<Span>, targets: seq<nat>, f: Span -> Span, i: nat)
    requires InRange(targets, |s|) && i < |s|
    requires forall x :: f(f(x)) == f(x)
    ensures ApplyAt(s, targets, f)[i] == if i in targets then f(s[i]) else s[i]
    decreases |targets|
  {
    if targets != [] {
      var init := targets[..|targets| - 1];
      ApplyAtIdempotent(s, init, f, i);
      assert targets == init + [targets[|targets| - 1]];
      ApplyAtIdempotent(s, init, f, targets[|targets| - 1]);
    }
  }

  /** For any patch, applying it along distinct targets patches each
      targeted span exactly once. */
  lemma {:induction false} ApplyAtDistinct(s: seq<Span>, targets: seq<nat>, f: Span -> Span, i: nat)
    requires InRange(targets, |s|) && Distinct(targets) && i < |s|
    ensures ApplyAt(s, targets, f)[i] == if i in targets then f(s[i]) else s[i]
    decreases |targets|
  {
    if targets != [] {
      var init := targets[..|targets| - 1];
      var last := targets[|targets| - 1];
      assert targets == init + [last];
      ApplyAtDistinct(s, init, f, i);
      ApplyAtDistinct(s, init, f, last);
      assert last !in init;
    }
  }

  lemma ApplyAtSnoc(s: seq<Span>, targets: seq<nat>, f: Span -> Span, i: nat)
    requires InRange(targets, |s|) && i < |targets|
    ensures InRange(targets[..i + 1], |s|) && InRange(targets[..i], |s|)
    ensures var p := ApplyAt(s, targets[..i], f);
      ApplyAt(s, targets[..i + 1], f) == p[targets[i] := f(p[targets[i]])]
  {
    assert targets[..i + 1][..i] == targets[..i];
  }

  /** The spans an observer callback touches for one added node: the node
      itself if it matches, then the matches below it. */
  function NodeTargets(n: AddedNode): seq<nat> {
    match n
    case NonElement => []
    case Element(self, below) => (if self.Some? then [self.value] else []) + below
  }

  /** The spans touched for a whole batch of mutation records, in order. */
  function BatchTargets(mutations: seq<seq<AddedNode>>): seq<nat>
    decreases |mutations|
  {
    if mutations == [] then []
    else BatchTargets(mutations[..|mutations| - 1]) + NodesTargets(mutations[|mutations| - 1])
  }

  function NodesTargets(nodes: seq<AddedNode>): seq<nat>
    decreases |nodes|
  {
    if nodes == [] then []
    else NodesTargets(nodes[..|nodes| - 1]) + NodeTargets(nodes[|nodes| - 1])
  }

  predicate BatchInRange(mutations: seq<seq<AddedNode>>, n: nat) {
    forall i, j :: 0 <= i < |mutations| && 0 <= j < |mutations[i]| ==> InRange(NodeTargets(mutations[i][j]), n)
  }

  lemma {:induction false} NodesInRange(nodes: seq<AddedNode>, n: nat)
    requires forall j :: 0 <= j < |nodes| ==> InRange(NodeTargets(nodes[j]), n)
    ensures InRange(NodesTargets(nodes), n)
    decreases |nodes|
  {
    if nodes != [] {
      NodesInRange(nodes[..|nodes| - 1], n);
    }
  }

  lemma {:induction false} BatchInRangeTargets(mutations: seq<seq<AddedNode>>, n: nat)
    requires BatchInRange(mutations, n)
    ensures InRange(BatchTargets(mutations), n)
    decreases |mutations|
  {
    if mutations != [] {
      BatchInRangeTargets(mutations[..|mutations| - 1], n);
      NodesInRange(mutations[|mutations| - 1], n);
    }
  }

  /** Applying along `a + b` is applying along `a`, then along `b`. */
  lemma {:induction false} ApplyAtAppend(s: seq<Span>, a: seq<nat>, b: seq<nat>, f: Span -> Span)
    requires InRange(a, |s|) && InRange(b, |s|)
    ensures InRange(a + b, |s|)
    ensures ApplyAt(s, a + b, f) == ApplyAt(ApplyAt(s, a, f), b, f)
    decreases |b|
  {
    if b != [] {
      var bi := b[..|b| - 1];
      assert (a + b)[..|a + b| - 1] == a + bi;
      ApplyAtAppend(s, a, bi, f);
    } else {
      assert a + b == a;
    }
  }
}
