/** The smiley checkbox pass: every `.check-container .checkmark` span gets
    one `<i class="smiley-face">` child unless it already has one. A pass is
    requested by a mutation observer that looks only at added nodes whose
    subtree carries one of four watched classes, and requests are coalesced
    through a `pending` flag into one animation-frame callback. */
module SmileyCheckbox {
  import opened Wrappers

  const SMILEY_CLASS: string := "smiley-face"
  /** The classes the observer treats as relevant. */
  const WATCHED: set<string> := {"roam-block-container", "check-container", "checkmark", "rm-block__input"}

  // ---------------------------------------------------------------------
  // The pass itself.

  /** A `.checkmark` span: whether it sits inside a `.check-container`
      (so that `.check-container .checkmark` selects it), and the class sets
      of its descendant elements. */
  datatype Checkmark = Checkmark(inContainer: bool, descendants: seq<set<string>>)

  /** `span.querySelector(".smiley-face")` finds something. */
  predicate HasSmiley(c: Checkmark) {
    exists i :: 0 <= i < |c.descendants| && SMILEY_CLASS in c.descendants[i]
  }

  /** What one pass does to one span. */
  function Decorate(c: Checkmark): (r: Checkmark)
    ensures r.inContainer == c.inContainer
    ensures c.inContainer ==> HasSmiley(r)
    ensures HasSmiley(c) || !c.inContainer ==> r == c
    ensures !HasSmiley(c) && c.inContainer ==> r.descendants == c.descendants + [{SMILEY_CLASS}]
  {
    if c.inContainer && !HasSmiley(c) then
      var r := c.(descendants := c.descendants + [{SMILEY_CLASS}]);
      assert SMILEY_CLASS in r.descendants[|c.descendants|];
      r
    else c
  }

  /** One pass over the page's checkmarks, as a value. */
  function Inject(s: seq<Checkmark>): (r: seq<Checkmark>)
    ensures |r| == |s|
    ensures forall i :: 0 <= i < |s| ==> r[i] == Decorate(s[i])
  {
    seq(|s|, i requires 0 <= i < |s| => Decorate(s[i]))
  }

  /** After a pass every selected checkmark has a smiley, and a span that
      already had one, or is not selected, is untouched. */
  lemma InjectCovers(s: seq<Checkmark>, i: nat)
    requires i < |s|
    ensures s[i].inContainer ==> HasSmiley(Inject(s)[i])
    ensures HasSmiley(s[i]) || !s[i].inContainer ==> Inject(s)[i] == s[i]
  {
  }

  /** A second pass is a no-op. */
  lemma {:induction false} InjectIdempotent(s: seq<Checkmark>)
    ensures Inject(Inject(s)) == Inject(s)
  {
    var once := Inject(s);
    forall i | 0 <= i < |s| ensures Inject(once)[i] == once[i] {
      assert once[i].inContainer ==> HasSmiley(once[i]);
    }
  }

  /** `injectSmileyFace`: the `forEach` over the selected spans, in place. */
  method InjectSmileyFace(marks: array<Checkmark>)
    modifies marks
    ensures marks[..] == Inject(old(marks[..]))
  {
    var i := 0;
    while i < marks.Length
      invariant 0 <= i <= marks.Length
      invariant forall k :: 0 <= k < i ==> marks[k] == Decorate(old(marks[k]))
      invariant forall k :: i <= k < marks.Length ==> marks[k] == old(marks[k])
    {
      if marks[i].inContainer && !HasSmiley(marks[i]) {
        marks[i] := marks[i].(descendants := marks[i].descendants + [{SMILEY_CLASS}]);
      }
      i := i + 1;
    }
  }

  // ---------------------------------------------------------------------
  // The observer's relevance filter.

  /** A DOM node as the observer sees it: an element with its classes and
      children, or any other node type (text, comment). */
  datatype Node = Element(classes: set<string>, children: seq<Node>) | NonElement

  predicate HasClass(n: Node, c: string) {
    n.Element? && c in n.classes
  }

  /** `el.querySelector("." + c)` finds a strict descendant. */
  predicate DescendantHas(n: Node, c: string) {
    n.Element? && exists i :: 0 <= i < |n.children| && (HasClass(n.children[i], c) || DescendantHas(n.children[i], c))
  }

  /** The observer's test for one added node, disjunct by disjunct. */
  predicate Relevant(n: Node) {
    n.Element? &&
    (HasClass(n, "roam-block-container") || HasClass(n, "check-container") ||
     HasClass(n, "checkmark") || DescendantHas(n, "roam-block-container") ||
     DescendantHas(n, "check-container") || DescendantHas(n, "checkmark") ||
     HasClass(n, "rm-block__input") || DescendantHas(n, "rm-block__input"))
  }

  /** `mutations.some(...)`: some added node of some record is relevant. */
  predicate ShouldCheck(mutations: seq<seq<Node>>) {
    exists i, j :: 0 <= i < |mutations| && 0 <= j < |mutations[i]| && Relevant(mutations[i][j])
  }

  /** The node reached from `n` by following child indices. */
  function At(n: Node, path: seq<nat>): Option<Node>
    decreases |path|
  {
    if path == [] then Some(n)
    else if n.Element? && path[0] < |n.children| then At(n.children[path[0]], path[1..])
    else None
  }

  /** An element anywhere in an added subtree (the node itself included)
      that carries a watched class makes the node relevant ... */
  lemma {:induction false} WatchedClassBelowIsRelevant(n: Node, path: seq<nat>, c: string)
    requires n.Element? && c in WATCHED
    requires At(n, path).Some? && HasClass(At(n, path).value, c)
    ensures Relevant(n)
  {
    if path != [] {
      ReachedBelow(n.children[path[0]], path[1..], c);
      assert HasClass(n.children[path[0]], c) || DescendantHas(n.children[path[0]], c);
      assert DescendantHas(n, c);
    }
  }

  lemma {:induction false} ReachedBelow(n: Node, path: seq<nat>, c: string)
    requires At(n, path).Some? && HasClass(At(n, path).value, c)
    ensures HasClass(n, c) || DescendantHas(n, c)
    decreases |path|
  {
    if path != [] {
      var child := n.children[path[0]];
      ReachedBelow(child, path[1..], c);
      assert HasClass(child, c) || DescendantHas(child, c);
    }
  }

  /** ... and conversely a relevant node has such an element in its subtree,
      so mutations that add only unwatched markup never schedule a pass. */
  lemma {:induction false} RelevantHasWatchedBelow(n: Node) returns (path: seq<nat>, c: string)
    requires Relevant(n)
    ensures c in WATCHED && At(n, path).Some? && HasClass(At(n, path).value, c)
  {
    c :| c in WATCHED && (HasClass(n, c) || DescendantHas(n, c));
    path := FindBelow(n, c);
  }

  lemma {:induction false} FindBelow(n: Node, c: string) returns (path: seq<nat>)
    requires HasClass(n, c) || DescendantHas(n, c)
    ensures At(n, path).Some? && HasClass(At(n, path).value, c)
  {
    if HasClass(n, c) {
      path := [];
    } else {
      var i :| 0 <= i < |n.children| && (HasClass(n.children[i], c) || DescendantHas(n.children[i], c));
      var rest := FindBelow(n.children[i], c);
      path := [i] + rest;
      assert path[1..] == rest;
    }
  }

  // ---------------------------------------------------------------------
  // The script instance: once-only start, pending flag, frame callback.

  class SmileyScript {
    /** `window.__roamSmileyCheckboxInited`. */
    var inited: bool
    var pending: bool
    /** Frame callbacks requested by `scheduleInject` and not yet run. */
    var queued: nat
    var marks: array<Checkmark>

    /** At most one callback outstanding, exactly while `pending` is set. */
    predicate Valid()
      reads this
    {
      queued == if pending then 1 else 0
    }

    constructor (marks: array<Checkmark>)
      ensures Valid() && !inited && !pending && this.marks == marks
    {
      inited, pending, queued := false, false, 0;
      this.marks := marks;
    }

    /** The script body: returns at once on a second run in the same
        window; otherwise marks the window and runs a first pass. */
    method Start() returns (started: bool)
      modifies this`inited, marks
      ensures started == !old(inited) && inited
      ensures started ==> marks[..] == Inject(old(marks[..]))
      ensures !started ==> marks[..] == old(marks[..])
    {
      if inited {
        return false;
      }
      inited := true;
      InjectSmileyFace(marks);
      return true;
    }

    /** `scheduleInject`: while a callback is pending, further calls do nothing. */
    method ScheduleInject()
      requires Valid()
      modifies this`pending, this`queued
      ensures Valid() && pending
      ensures queued == 1
      ensures old(pending) ==> queued == old(queued)
    {
      if pending {
        return;
      }
      pending := true;
      queued := queued + 1;
    }

    /** The observer callback: schedules a pass only for a relevant batch. */
    method OnMutations(mutations: seq<seq<Node>>)
      requires Valid()
      modifies this`pending, this`queued
      ensures Valid()
      ensures ShouldCheck(mutations) ==> pending
      ensures !ShouldCheck(mutations) ==> pending == old(pending) && queued == old(queued)
    {
      if !ShouldCheck(mutations) {
        return;
      }
      ScheduleInject();
    }

    /** The animation frame fires the pending callback: `pending` is cleared
        first, then the pass runs. `passThrows` models an exception inside
        the pass; the flag is clear either way, so scheduling is never stuck. */
    method FrameFired(passThrows: bool)
      requires Valid() && queued > 0
      modifies this`pending, this`queued, marks
      ensures Valid() && !pending && queued == 0
      ensures marks[..] == if passThrows then old(marks[..]) else Inject(old(marks[..]))
    {
      queued := queued - 1;
      pending := false;
      if !passThrows {
        InjectSmileyFace(marks);
      }
    }
  }

  /** Any number of scheduling requests before a frame leave one callback queued. */
  method Debounce(script: SmileyScript, n: nat)
    requires script.Valid() && !script.pending && n > 0
    modifies script
    ensures script.Valid() && script.queued == 1
  {
    var k := 0;
    while k < n
      invariant script.Valid()
      invariant 0 <= k <= n
      invariant k > 0 ==> script.queued == 1
    {
      script.ScheduleInject();
      k := k + 1;
    }
  }
}
