/** Removing character spans from source text.

    The rewriters cut statement spans out of a module's text in one
    left-to-right pass. Each cut shortens the text, so every later cut is
    applied at its original position shifted by a running negative offset
    (minus the length removed so far). `RemoveSpans` is the reference
    meaning: cut the original, sorted, disjoint spans from right to left,
    where the original positions stay valid. `ShiftedCut` proves that one
    offset-adjusted cut extends the reference by one span. */
module Spans {

  /** The half-open character range `[start, end)`. */
  datatype Span = Span(start: nat, end: nat)

  /** Sorted, pairwise disjoint spans that all end at or before `bound`. */
  predicate Ordered(spans: seq<Span>, bound: nat) {
    (forall i :: 0 <= i < |spans| ==> spans[i].start <= spans[i].end <= bound)
    && (forall i, j :: 0 <= i < j < |spans| ==> spans[i].end <= spans[j].start)
  }

  function Len(s: Span): nat
    requires s.start <= s.end
  {
    s.end - s.start
  }

  /** The total length of the spans. */
  function Total(spans: seq<Span>): nat
    requires forall i :: 0 <= i < |spans| ==> spans[i].start <= spans[i].end
    decreases |spans|
  {
    if spans == [] then 0 else Total(spans[..|spans| - 1]) + Len(spans[|spans| - 1])
  }

  /** The text with every span cut out, cutting the last span first. */
  function RemoveSpans(code: string, spans: seq<Span>): string
    requires Ordered(spans, |code|)
    decreases |spans|
  {
    if spans == [] then code
    else
      var last := spans[|spans| - 1];
      var rest := code[..last.start] + code[last.end..];
      assert Ordered(spans[..|spans| - 1], |rest|) by {
        forall i | 0 <= i < |spans| - 1 ensures spans[i].end <= last.start {
          assert spans[i].end <= spans[|spans| - 1].start;
        }
      }
      RemoveSpans(rest, spans[..|spans| - 1])
  }

  /** `text.substring(0, from) + text.substring(to)`, for `from <= to`
      inside the text: the text with `[from, to)` cut out. */
  function Splice(text: string, from: nat, to: nat): (r: string)
    requires from <= to <= |text|
    ensures |r| == |text| - (to - from)
  {
    text[..from] + text[to..]
  }

  lemma OrderedPrefix(spans: seq<Span>, bound: nat, k: nat)
    requires Ordered(spans, bound) && k <= |spans|
    ensures Ordered(spans[..k], bound)
  {
  }

  /** Spans ordered below one bound are ordered below a larger one. */
  lemma OrderedWeaken(spans: seq<Span>, bound: nat, bound': nat)
    requires Ordered(spans, bound) && bound <= bound'
    ensures Ordered(spans, bound')
  {
  }

  /** Appending a span that starts after the current bound keeps the spans
      ordered, up to the end of the new span. */
  lemma OrderedSnoc(spans: seq<Span>, bound: nat, s: Span)
    requires Ordered(spans, bound) && bound <= s.start <= s.end
    ensures Ordered(spans + [s], s.end)
  {
  }

  /** The removed length never exceeds the bound. */
  lemma {:induction false} TotalBound(spans: seq<Span>, bound: nat)
    requires Ordered(spans, bound)
    ensures Total(spans) <= bound
    ensures spans != [] ==> Total(spans) <= spans[|spans| - 1].end
    decreases |spans|
  {
    if spans != [] {
      var init := spans[..|spans| - 1];
      var last := spans[|spans| - 1];
      OrderedPrefix(spans, bound, |spans| - 1);
      TotalBound(init, last.start);
      if init != [] {
        assert init[|init| - 1].end <= last.start;
      }
    }
  }

  /** Cutting leaves exactly `Total` fewer characters. */
  lemma {:induction false} RemoveLength(code: string, spans: seq<Span>)
    requires Ordered(spans, |code|)
    ensures |RemoveSpans(code, spans)| == |code| - Total(spans)
    decreases |spans|
  {
    if spans != [] {
      var last := spans[|spans| - 1];
      var rest := code[..last.start] + code[last.end..];
      var init := spans[..|spans| - 1];
      assert Ordered(init, |rest|) by {
        forall i | 0 <= i < |init| ensures init[i].end <= last.start {
          assert spans[i].end <= spans[|spans| - 1].start;
        }
      }
      RemoveLength(rest, init);
    }
  }

  /** Spans that all end by `p` only touch the text before `p`. */
  lemma {:induction false} RemoveSplit(code: string, spans: seq<Span>, p: nat)
    requires p <= |code| && Ordered(spans, p)
    ensures RemoveSpans(code, spans) == RemoveSpans(code[..p], spans) + code[p..]
    decreases |spans|
  {
    if spans != [] {
      var last := spans[|spans| - 1];
      var init := spans[..|spans| - 1];
      var rest := code[..last.start] + code[last.end..];
      var restP := code[..p][..last.start] + code[..p][last.end..];
      assert Ordered(init, last.start) by {
        forall i | 0 <= i < |init| ensures init[i].end <= last.start {
          assert spans[i].end <= spans[|spans| - 1].start;
        }
      }
      OrderedWeaken(spans, p, |code|);
      CutLast(code, spans);
      CutLast(code[..p], spans);
      OrderedWeaken(init, last.start, |rest|);
      OrderedWeaken(init, last.start, |restP|);
      RemoveSplit(rest, init, last.start);
      RemoveSplit(restP, init, last.start);
      assert rest[..last.start] == restP[..last.start];
      SplitParts(code, p, last.start, last.end, rest, restP);
      SplitCombine(RemoveSpans(code, spans), RemoveSpans(code[..p], spans),
                   RemoveSpans(rest[..last.start], init), rest[last.start..], restP[last.start..], code[p..]);
    }
  }

  /** What is left after the cut `[a, b)` and after `p`, from `a` on. */
  lemma SplitParts(code: string, p: nat, a: nat, b: nat, rest: string, restP: string)
    requires a <= b <= p <= |code|
    requires rest == code[..a] + code[b..] && restP == code[..p][..a] + code[..p][b..]
    ensures rest[a..] == restP[a..] + code[p..]
  {
    assert rest[a..] == code[b..];
    assert restP[a..] == code[b..p];
    assert code[b..] == code[b..p] + code[p..];
  }

  lemma SplitCombine(whole: string, part: string, x: string, r1: string, r2: string, tail: string)
    requires whole == x + r1 && part == x + r2 && r1 == r2 + tail
    ensures whole == part + tail
  {
  }

  /** One step of the left-to-right pass: cutting `s`, shifted by minus the
      length removed so far, from the text produced by the earlier cuts
      equals cutting all the original spans. */
  lemma ShiftedCut(code: string, spans: seq<Span>, s: Span)
    requires Ordered(spans, s.start) && s.start <= s.end <= |code|
    ensures Ordered(spans, |code|) && Ordered(spans + [s], |code|)
    ensures Total(spans) <= s.start
    ensures |RemoveSpans(code, spans)| == |code| - Total(spans)
    ensures RemoveSpans(code, spans + [s])
      == RemoveSpans(code, spans)[..s.start - Total(spans)]
         + RemoveSpans(code, spans)[s.end - Total(spans)..]
  {
    ShiftedOrder(code, spans, s);
    ShiftedText(code, spans, s);
  }

  lemma ShiftedOrder(code: string, spans: seq<Span>, s: Span)
    requires Ordered(spans, s.start) && s.start <= s.end <= |code|
    ensures Ordered(spans, |code|) && Ordered(spans + [s], |code|)
    ensures Total(spans) <= s.start
    ensures |RemoveSpans(code, spans)| == |code| - Total(spans)
  {
    OrderedWeaken(spans, s.start, |code|);
    OrderedSnoc(spans, s.start, s);
    OrderedWeaken(spans + [s], s.end, |code|);
    TotalBound(spans, s.start);
    RemoveLength(code, spans);
  }

  lemma ShiftedText(code: string, spans: seq<Span>, s: Span)
    requires Ordered(spans, s.start) && s.start <= s.end <= |code|
    requires Ordered(spans, |code|) && Ordered(spans + [s], |code|)
    requires Total(spans) <= s.start && |RemoveSpans(code, spans)| == |code| - Total(spans)
    ensures RemoveSpans(code, spans + [s])
      == RemoveSpans(code, spans)[..s.start - Total(spans)]
         + RemoveSpans(code, spans)[s.end - Total(spans)..]
  {
    CutBefore(code, spans, s.start);
    CutWithLast(code, spans, s);
    Reassemble(RemoveSpans(code, spans + [s]), RemoveSpans(code, spans), RemoveSpans(code[..s.start], spans),
               code, s.start, s.end, Total(spans));
  }

  /** `x` is `cur` without its part from `p - t` to `q - t`, when `cur` is
      `a`, of length `p - t`, and `code[p..]`, and `x` is `a` and
      `code[q..]`. */
  lemma Reassemble(x: string, cur: string, a: string, code: string, p: nat, q: nat, t: nat)
    requires t <= p <= q <= |code| && x == a + code[q..] && cur == a + code[p..] && |a| == p - t
    ensures x == cur[..p - t] + cur[q - t..]
  {
    assert cur[..p - t] == a;
    assert cur[q - t..] == code[p..][q - p..];
    assert code[p..][q - p..] == code[q..];
  }

  /** Before `p`, past every span, the cut text is the cut prefix followed
      by the rest of the text. */
  lemma CutBefore(code: string, spans: seq<Span>, p: nat)
    requires Ordered(spans, p) && p <= |code|
    ensures Ordered(spans, |code|) && Total(spans) <= p
    ensures RemoveSpans(code, spans) == RemoveSpans(code[..p], spans) + code[p..]
    ensures |RemoveSpans(code[..p], spans)| == p - Total(spans)
  {
    OrderedWeaken(spans, p, |code|);
    TotalBound(spans, p);
    RemoveSplit(code, spans, p);
    RemoveLength(code[..p], spans);
  }

  /** Cutting one more span after the others: the cut prefix before it and
      the text after it. */
  lemma CutWithLast(code: string, spans: seq<Span>, s: Span)
    requires Ordered(spans, s.start) && s.start <= s.end <= |code|
    requires Ordered(spans + [s], |code|)
    ensures RemoveSpans(code, spans + [s]) == RemoveSpans(code[..s.start], spans) + code[s.end..]
  {
    var rest := code[..s.start] + code[s.end..];
    OrderedWeaken(spans, s.start, |rest|);
    RemoveSplit(rest, spans, s.start);
    assert rest[..s.start] == code[..s.start];
    assert rest[s.start..] == code[s.end..];
    var all := spans + [s];
    assert all[..|all| - 1] == spans;
    assert RemoveSpans(code, all) == RemoveSpans(rest, spans);
  }

  /** Text after every span survives unchanged, moved left by their total
      length. */
  lemma KeptAfter(code: string, spans: seq<Span>, s: Span)
    requires Ordered(spans, s.start) && s.start <= s.end <= |code|
    ensures Ordered(spans, |code|) && Total(spans) <= s.start
    ensures s.end - Total(spans) <= |RemoveSpans(code, spans)|
    ensures RemoveSpans(code, spans)[s.start - Total(spans)..s.end - Total(spans)]
      == code[s.start..s.end]
  {
    OrderedWeaken(spans, s.start, |code|);
    TotalBound(spans, s.start);
    RemoveSplit(code, spans, s.start);
    RemoveLength(code[..s.start], spans);
    RemoveLength(code, spans);
    var a := RemoveSpans(code[..s.start], spans);
    assert RemoveSpans(code, spans) == a + code[s.start..];
    assert |a| == s.start - Total(spans);
  }

  /** Text that no span touches survives the cutting unchanged, moved left
      by the length of the spans before it. */
  /** `pre` opens `all`, ends by `s.start`, and what follows starts after `s`. */
  predicate Between(all: seq<Span>, pre: seq<Span>, s: Span) {
    && |pre| <= |all| && all[..|pre|] == pre
    && (pre == [] || all[|pre| - 1].end <= s.start)
    && (|pre| == |all| || s.end <= all[|pre|].start)
  }

  /** The text of `s` survives cutting `spans`, moved left by `d`. */
  predicate Survives(code: string, spans: seq<Span>, d: nat, s: Span) {
    && Ordered(spans, |code|) && d <= s.start <= s.end <= |code|
    && s.end - d <= |RemoveSpans(code, spans)|
    && RemoveSpans(code, spans)[s.start - d..s.end - d] == code[s.start..s.end]
  }

  lemma {:induction false} Kept(code: string, spans: seq<Span>, k: nat, s: Span)
    requires Ordered(spans, |code|) && k <= |spans| && s.start <= s.end <= |code|
    requires k == 0 || spans[k - 1].end <= s.start
    requires k == |spans| || s.end <= spans[k].start
    ensures Total(spans[..k]) <= s.start
    ensures s.end - Total(spans[..k]) <= |RemoveSpans(code, spans)|
    ensures RemoveSpans(code, spans)[s.start - Total(spans[..k])..s.end - Total(spans[..k])]
      == code[s.start..s.end]
    decreases |spans|, 1
  {
    if k == |spans| {
      assert spans[..k] == spans;
      forall i | 0 <= i < |spans| ensures spans[i].end <= s.start {
        if i < k - 1 {
          assert spans[i].end <= spans[k - 1].start;
        }
      }
      KeptAfter(code, spans, s);
    } else {
      KeptBefore(code, spans, k, s);
    }
  }

  /** `Kept` when a span lies after `s`: cut the last span, then the
      others. */
  lemma {:induction false} KeptBefore(code: string, spans: seq<Span>, k: nat, s: Span)
    requires Ordered(spans, |code|) && k < |spans| && s.start <= s.end <= |code|
    requires k == 0 || spans[k - 1].end <= s.start
    requires k == |spans| || s.end <= spans[k].start
    ensures Total(spans[..k]) <= s.start
    ensures s.end - Total(spans[..k]) <= |RemoveSpans(code, spans)|
    ensures RemoveSpans(code, spans)[s.start - Total(spans[..k])..s.end - Total(spans[..k])]
      == code[s.start..s.end]
    decreases |spans|, 0
  {
    {
      var last := spans[|spans| - 1];
      var init := spans[..|spans| - 1];
      var rest := code[..last.start] + code[last.end..];
      KeptShift(code, spans, k, s, last, init, rest);
      Kept(rest, init, k, s);
      KeptCombine(RemoveSpans(code, spans), RemoveSpans(rest, init), rest, code,
                  Total(spans[..k]), Total(init[..k]), s.start, s.end);
    }
  }

  /** The slice of the cut text found in the shorter text carries over to
      the whole cut text, equal to it, and back to the original. */
  lemma KeptCombine(whole: string, cut: string, rest: string, code: string, t: nat, t': nat, a: nat, b: nat)
    requires whole == cut && t == t' && t' <= a <= b && b - t' <= |cut| && b <= |rest| && b <= |code|
    requires cut[a - t'..b - t'] == rest[a..b] && rest[a..b] == code[a..b]
    ensures t <= a && b - t <= |whole| && whole[a - t..b - t] == code[a..b]
  {
  }

  /** Cutting the last span, which lies after `s`, keeps the conditions
      of `Kept` for the other spans in the shorter text. */
  lemma KeptShift(code: string, spans: seq<Span>, k: nat, s: Span, last: Span, init: seq<Span>, rest: string)
    requires Ordered(spans, |code|) && k < |spans| && s.start <= s.end <= |code|
    requires k == 0 || spans[k - 1].end <= s.start
    requires s.end <= spans[k].start
    requires last == spans[|spans| - 1] && init == spans[..|spans| - 1]
    requires rest == code[..last.start] + code[last.end..]
    ensures Ordered(init, |rest|) && k <= |init| && s.start <= s.end <= |rest|
      && (k == 0 || init[k - 1].end <= s.start)
      && (k == |init| || s.end <= init[k].start)
      && init[..k] == spans[..k]
      && RemoveSpans(code, spans) == RemoveSpans(rest, init)
      && rest[s.start..s.end] == code[s.start..s.end]
  {
    CutLast(code, spans);
    assert init[..k] == spans[..k];
    assert s.end <= last.start by {
      if k < |spans| - 1 {
        assert spans[k].end <= last.start;
      }
    }
    if k > 0 {
      assert init[k - 1] == spans[k - 1];
    }
    if k < |init| {
      assert init[k] == spans[k];
    }
    SliceBefore(code, last.start, last.end, s.start, s.end);
  }

  /** Cutting the last span first leaves the others ordered in the shorter
      text. */
  lemma CutLast(code: string, spans: seq<Span>)
    requires Ordered(spans, |code|) && spans != []
    ensures Ordered(spans[..|spans| - 1], |code[..spans[|spans| - 1].start] + code[spans[|spans| - 1].end..]|)
    ensures RemoveSpans(code, spans)
      == RemoveSpans(code[..spans[|spans| - 1].start] + code[spans[|spans| - 1].end..], spans[..|spans| - 1])
  {
    var last := spans[|spans| - 1];
    var init := spans[..|spans| - 1];
    forall i | 0 <= i < |init| ensures init[i].end <= last.start {
      assert spans[i].end <= spans[|spans| - 1].start;
    }
  }

  /** Cutting `[a, b)` leaves the text before `a` in place. */
  lemma SliceBefore(code: string, a: nat, b: nat, x: nat, y: nat)
    requires x <= y <= a <= b <= |code|
    ensures (code[..a] + code[b..])[x..y] == code[x..y]
  {
  }
}
