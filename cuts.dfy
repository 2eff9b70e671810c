/** The rewriters' common pattern: one left-to-right pass over the top-level
    nodes, cutting from each node at most one span that lies inside it.
    `cut` says which span a node loses; `CutSpans` collects them in source
    order; the lemmas show the spans stay ordered, so the shifted cuts of
    the pass equal `RemoveSpans`, and that text outside the cuts survives. */
module Cuts {
  import opened Text
  import opened Spans
  import opened Ast

  /** The spans cut from `nodes`, in source order. */
  function CutSpans(cut: Node -> Option<Span>, nodes: seq<Node>): seq<Span>
    decreases |nodes|
  {
    if nodes == [] then []
    else
      var c := cut(nodes[|nodes| - 1]);
      CutSpans(cut, nodes[..|nodes| - 1]) + (if c.Some? then [c.value] else [])
  }

  /** The span cut from a node lies inside the node. */
  predicate CutWithin(cut: Node -> Option<Span>, n: Node) {
    cut(n).Some? ==> n.start <= cut(n).value.start <= cut(n).value.end <= n.end
  }

  predicate CutsWithin(cut: Node -> Option<Span>, nodes: seq<Node>) {
    forall j :: 0 <= j < |nodes| ==> CutWithin(cut, nodes[j])
  }

  /** Visiting node `i` appends its cut, keeping the spans ordered up to the
      start of the next node. */
  lemma CutStep(code: string, cut: Node -> Option<Span>, nodes: seq<Node>, i: nat)
    requires WellFormed(code, nodes) && CutsWithin(cut, nodes) && i < |nodes|
    requires Ordered(CutSpans(cut, nodes[..i]), nodes[i].start)
    ensures CutSpans(cut, nodes[..i + 1])
      == CutSpans(cut, nodes[..i]) + (if cut(nodes[i]).Some? then [cut(nodes[i]).value] else [])
    ensures Ordered(CutSpans(cut, nodes[..i + 1]), NextStart(code, nodes, i + 1))
  {
    NodeBeforeNext(code, nodes, i);
    assert nodes[..i + 1][..i] == nodes[..i];
    var removed := CutSpans(cut, nodes[..i]);
    var c := cut(nodes[i]);
    assert CutWithin(cut, nodes[i]);
    if c.Some? {
      OrderedSnoc(removed, nodes[i].start, c.value);
      OrderedWeaken(removed + [c.value], c.value.end, NextStart(code, nodes, i + 1));
    } else {
      OrderedWeaken(removed, nodes[i].start, NextStart(code, nodes, i + 1));
    }
  }

  /** The state of the pass after visiting `nodes[..i]`: `text` is the
      original with the cuts so far removed, and `offset` is minus their
      total length. */
  predicate Pass(code: string, cut: Node -> Option<Span>, nodes: seq<Node>, i: nat,
                 text: string, offset: int)
  {
    && WellFormed(code, nodes) && CutsWithin(cut, nodes) && i <= |nodes|
    && Ordered(CutSpans(cut, nodes[..i]), NextStart(code, nodes, i))
    && Ordered(CutSpans(cut, nodes[..i]), |code|)
    && text == RemoveSpans(code, CutSpans(cut, nodes[..i]))
    && offset + Total(CutSpans(cut, nodes[..i])) == 0
  }

  lemma PassStart(code: string, cut: Node -> Option<Span>, nodes: seq<Node>)
    requires WellFormed(code, nodes) && CutsWithin(cut, nodes)
    ensures Pass(code, cut, nodes, 0, code, 0)
  {
    assert nodes[..0] == [];
  }

  /** A node without a cut leaves text and offset as they are. */
  lemma PassSkip(code: string, cut: Node -> Option<Span>, nodes: seq<Node>, i: nat,
                 text: string, offset: int)
    requires Pass(code, cut, nodes, i, text, offset) && i < |nodes| && cut(nodes[i]).None?
    ensures Pass(code, cut, nodes, i + 1, text, offset)
  {
    CutStep(code, cut, nodes, i);
    NodeBeforeNext(code, nodes, i);
    var removed := CutSpans(cut, nodes[..i]);
    assert removed + [] == removed;
    assert CutSpans(cut, nodes[..i + 1]) == removed;
    OrderedWeaken(removed, NextStart(code, nodes, i + 1), |code|);
  }

  /** Cutting node `i`'s span `c` from the current text at its position
      shifted by `offset` gives the reference text for one more node. */
  lemma PassCut(code: string, cut: Node -> Option<Span>, nodes: seq<Node>, i: nat,
                text: string, offset: int, c: Span)
    requires Pass(code, cut, nodes, i, text, offset) && i < |nodes| && cut(nodes[i]) == Some(c)
    ensures 0 <= c.start + offset <= c.end + offset <= |text|
    ensures Pass(code, cut, nodes, i + 1, Splice(text, c.start + offset, c.end + offset),
                 offset - (c.end - c.start))
  {
    CutStep(code, cut, nodes, i);
    NodeBeforeNext(code, nodes, i);
    assert CutWithin(cut, nodes[i]);
    OrderedWeaken(CutSpans(cut, nodes[..i]), nodes[i].start, c.start);
    CutShifted(code, CutSpans(cut, nodes[..i]), CutSpans(cut, nodes[..i + 1]), c, text, offset);
  }

  /** `ShiftedCut` for the text and offset of the pass. */
  lemma CutShifted(code: string, removed: seq<Span>, next: seq<Span>, c: Span, text: string, offset: int)
    requires Ordered(removed, c.start) && c.start <= c.end <= |code| && next == removed + [c]
    requires Ordered(removed, |code|) && text == RemoveSpans(code, removed) && offset + Total(removed) == 0
    ensures 0 <= c.start + offset <= c.end + offset <= |text|
    ensures Ordered(next, |code|)
    ensures Splice(text, c.start + offset, c.end + offset) == RemoveSpans(code, next)
    ensures offset - (c.end - c.start) + Total(next) == 0
  {
    ShiftedCut(code, removed, c);
    assert next[..|next| - 1] == removed;
  }

  /** The text update of the pass: `text.substring(0, c.start + offset) +
      text.substring(c.end + offset)`, and the offset moved back by the
      length cut. */
  method CutOut(ghost code: string, ghost cut: Node -> Option<Span>, ghost nodes: seq<Node>, ghost i: nat,
                text: string, offset: int, c: Span)
    returns (text': string, offset': int)
    requires Pass(code, cut, nodes, i, text, offset) && i < |nodes| && cut(nodes[i]) == Some(c)
    ensures Pass(code, cut, nodes, i + 1, text', offset')
  {
    PassCut(code, cut, nodes, i, text, offset, c);
    text' := Splice(text, c.start + offset, c.end + offset);
    offset' := offset - (c.end - c.start);
  }

  /** At the end of the pass the text is the original with every cut
      removed. */
  lemma PassEnd(code: string, cut: Node -> Option<Span>, nodes: seq<Node>, text: string, offset: int)
    requires Pass(code, cut, nodes, |nodes|, text, offset)
    ensures Ordered(CutSpans(cut, nodes), |code|)
    ensures text == RemoveSpans(code, CutSpans(cut, nodes))
  {
    assert nodes[..|nodes|] == nodes;
  }

  /** The cuts of a prefix are ordered below the start of the next node. */
  lemma {:induction false} CutSpansOrdered(code: string, cut: Node -> Option<Span>, nodes: seq<Node>, i: nat)
    requires WellFormed(code, nodes) && CutsWithin(cut, nodes) && i <= |nodes|
    ensures Ordered(CutSpans(cut, nodes[..i]), NextStart(code, nodes, i))
    decreases i
  {
    if i > 0 {
      CutSpansOrdered(code, cut, nodes, i - 1);
      CutStep(code, cut, nodes, i - 1);
    } else {
      assert nodes[..0] == [];
    }
  }

  lemma {:induction false} CutSpansAppend(cut: Node -> Option<Span>, a: seq<Node>, b: seq<Node>)
    ensures CutSpans(cut, a + b) == CutSpans(cut, a) + CutSpans(cut, b)
    decreases |b|
  {
    if b != [] {
      var b' := b[..|b| - 1];
      assert (a + b)[..|a + b| - 1] == a + b';
      assert (a + b)[|a + b| - 1] == b[|b| - 1];
      CutSpansAppend(cut, a, b');
    } else {
      assert a + b == a;
    }
  }

  /** Cuts of nodes lying within `[lo, hi)` lie there too. */
  lemma {:induction false} CutSpansWithin(cut: Node -> Option<Span>, nodes: seq<Node>, lo: nat, hi: nat)
    requires CutsWithin(cut, nodes)
    requires forall j :: 0 <= j < |nodes| ==> lo <= nodes[j].start && nodes[j].end <= hi
    ensures forall j :: 0 <= j < |CutSpans(cut, nodes)| ==>
      lo <= CutSpans(cut, nodes)[j].start && CutSpans(cut, nodes)[j].end <= hi
    decreases |nodes|
  {
    if nodes != [] {
      var init := nodes[..|nodes| - 1];
      var n := nodes[|nodes| - 1];
      assert CutWithin(cut, n);
      assert CutsWithin(cut, init) by {
        forall j | 0 <= j < |init| ensures CutWithin(cut, init[j]) {
          assert init[j] == nodes[j];
        }
      }
      CutSpansWithin(cut, init, lo, hi);
    }
  }

  /** The cuts up to node `i` end by `s.start`; the later ones start after
      node `i`, so after `s`. */
  lemma CutsAround(code: string, cut: Node -> Option<Span>, nodes: seq<Node>, i: nat, s: Span)
    requires WellFormed(code, nodes) && CutsWithin(cut, nodes) && i < |nodes|
    requires nodes[i].start <= s.start <= s.end <= nodes[i].end
    requires cut(nodes[i]).Some? ==> cut(nodes[i]).value.end <= s.start
    ensures Ordered(CutSpans(cut, nodes), |code|)
    ensures Ordered(CutSpans(cut, nodes[..i + 1]), s.start)
    ensures Between(CutSpans(cut, nodes), CutSpans(cut, nodes[..i + 1]), s)
  {
    CutsOrdered(code, cut, nodes);
    CutsBelow(code, cut, nodes, i, s);
    CutsAfter(code, cut, nodes, i);
    CutSpansSplit(cut, nodes, i + 1);
    BetweenConcat(CutSpans(cut, nodes), CutSpans(cut, nodes[..i + 1]), CutSpans(cut, nodes[i + 1..]),
                  s, nodes[i].end);
  }

  /** All the cuts are ordered within the code. */
  lemma CutsOrdered(code: string, cut: Node -> Option<Span>, nodes: seq<Node>)
    requires WellFormed(code, nodes) && CutsWithin(cut, nodes)
    ensures Ordered(CutSpans(cut, nodes), |code|)
  {
    CutSpansOrdered(code, cut, nodes, |nodes|);
    assert nodes[..|nodes|] == nodes;
  }

  lemma CutSpansSplit(cut: Node -> Option<Span>, nodes: seq<Node>, k: nat)
    requires k <= |nodes|
    ensures CutSpans(cut, nodes) == CutSpans(cut, nodes[..k]) + CutSpans(cut, nodes[k..])
  {
    assert nodes == nodes[..k] + nodes[k..];
    CutSpansAppend(cut, nodes[..k], nodes[k..]);
  }

  /** The cuts up to and including node `i` end by `s.start`. */
  lemma CutsBelow(code: string, cut: Node -> Option<Span>, nodes: seq<Node>, i: nat, s: Span)
    requires WellFormed(code, nodes) && CutsWithin(cut, nodes) && i < |nodes|
    requires nodes[i].start <= s.start
    requires cut(nodes[i]).Some? ==> cut(nodes[i]).value.end <= s.start
    ensures Ordered(CutSpans(cut, nodes[..i + 1]), s.start)
  {
    CutSpansOrdered(code, cut, nodes, i);
    CutStep(code, cut, nodes, i);
    var before, sa := CutSpans(cut, nodes[..i]), CutSpans(cut, nodes[..i + 1]);
    assert CutWithin(cut, nodes[i]);
    forall j | 0 <= j < |sa| ensures sa[j].end <= s.start {
      if j < |before| {
        assert sa[j] == before[j];
      }
    }
  }

  predicate StartAfter(spans: seq<Span>, end: nat) {
    forall j :: 0 <= j < |spans| ==> end <= spans[j].start
  }

  /** The cuts after node `i` start after its end. */
  lemma CutsAfter(code: string, cut: Node -> Option<Span>, nodes: seq<Node>, i: nat)
    requires WellFormed(code, nodes) && CutsWithin(cut, nodes) && i < |nodes|
    ensures StartAfter(CutSpans(cut, nodes[i + 1..]), nodes[i].end)
  {
    var b := nodes[i + 1..];
    forall j | 0 <= j < |b| ensures nodes[i].end <= b[j].start && b[j].end <= |code| {
      assert b[j] == nodes[i + 1 + j];
    }
    assert CutsWithin(cut, b) by {
      forall j | 0 <= j < |b| ensures CutWithin(cut, b[j]) {
        assert b[j] == nodes[i + 1 + j];
      }
    }
    CutSpansWithin(cut, b, nodes[i].end, |code|);
  }

  lemma BetweenConcat(all: seq<Span>, sa: seq<Span>, sb: seq<Span>, s: Span, end: nat)
    requires all == sa + sb && Ordered(sa, s.start) && s.end <= end
    requires StartAfter(sb, end)
    ensures Between(all, sa, s)
  {
    assert all[..|sa|] == sa;
    if |sa| > 0 {
      assert all[|sa| - 1] == sa[|sa| - 1];
    }
    if |sb| > 0 {
      assert all[|sa|] == sb[0];
    }
  }

  /** Text of node `i` at or after its own cut (all of it when it has none)
      survives verbatim, moved left by the length cut up to and including
      node `i`. */
  lemma KeptText(code: string, cut: Node -> Option<Span>, nodes: seq<Node>, i: nat, s: Span)
    requires WellFormed(code, nodes) && CutsWithin(cut, nodes) && i < |nodes|
    requires nodes[i].start <= s.start <= s.end <= nodes[i].end
    requires cut(nodes[i]).Some? ==> cut(nodes[i]).value.end <= s.start
    ensures Ordered(CutSpans(cut, nodes[..i + 1]), s.start)
    ensures Survives(code, CutSpans(cut, nodes), Total(CutSpans(cut, nodes[..i + 1])), s)
  {
    CutsAround(code, cut, nodes, i, s);
    KeptAfterPrefix(code, CutSpans(cut, nodes), CutSpans(cut, nodes[..i + 1]), s);
  }

  /** `Kept` for the spans `pre` that open `all`, when `s` lies between
      them and the rest. */
  lemma KeptAfterPrefix(code: string, all: seq<Span>, pre: seq<Span>, s: Span)
    requires Ordered(all, |code|) && Between(all, pre, s) && s.start <= s.end <= |code|
    ensures Survives(code, all, Total(pre), s)
  {
    Kept(code, all, |pre|, s);
  }
}
