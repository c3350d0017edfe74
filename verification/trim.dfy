/**
 The `trim` stage: the name is split at its dots, every segment has its
 separator runs collapsed and its leading and trailing separators removed,
 and the segments are joined back with dots.
 */
module Trimming {
  import opened Runes
  import opened Segments
  import opened Collapse
  import opened Edges

  /** The segment does not start with a character of `S`. */
  predicate NoLeadingSeparator(p: string, S: set<char>) {
    |p| == 0 || p[0] !in S
  }

  /** The segment does not end with a character of `S`. */
  predicate NoTrailingSeparator(p: string, S: set<char>) {
    |p| == 0 || p[|p| - 1] !in S
  }

  /** `t` holds every code point outside `S` exactly as often as `s` does. */
  predicate KeepsOthers(s: string, t: string, S: set<char>) {
    forall x :: x !in S ==> multiset(t)[x] == multiset(s)[x]
  }

  /** What trimming guarantees of one segment. */
  predicate CleanSegment(p: string, S: set<char>) {
    NoRuns(p, S) && NoLeadingSeparator(p, S) && NoTrailingSeparator(p, S)
  }

  /** Every segment of `s` is clean. */
  predicate CleanSegments(s: string, S: set<char>) {
    forall k :: 0 <= k < |SplitDots(s)| ==> CleanSegment(SplitDots(s)[k], S)
  }

  /** A slice of a string without runs has none either. */
  lemma NoRunsSlice(s: string, S: set<char>, i: nat, j: nat)
    requires NoRuns(s, S) && i <= j <= |s|
    ensures NoRuns(s[i..j], S)
  {
    var t := s[i..j];
    forall n | 0 < n < |t|
      ensures !(t[n] in S && t[n - 1] == t[n])
    {
      assert t[n] == s[i + n] && t[n - 1] == s[i + n - 1];
    }
  }

  /** The edge-stripped collapse of a segment is an infix of the collapse, so it
      has no runs either. */
  lemma StrippedCollapseHasNoRuns(p: string, S: set<char>)
    ensures NoRuns(StripEdges(CollapseSet(p, S), S), S)
  {
    var c := CollapseSet(p, S);
    CollapseNoRuns(p, S);
    StripEdgesIsTrim(c, S);
    var l := TrimLeft(c, S);
    NoRunsSlice(c, S, |c| - |l|, |c|);
    NoRunsSlice(l, S, 0, |TrimRight(l, S)|);
  }

  /** A segment without runs is left alone by the collapse. */
  lemma CleanSegmentCollapses(p: string, S: set<char>)
    ensures NoRuns(p, S) ==> CollapseSet(p, S) == p
  {
    if NoRuns(p, S) {
      CollapseKeepsRunFree(p, S);
    }
  }

  /** One segment: collapse separator runs, then strip separators from both ends. */
  function TrimSegment(p: string, S: set<char>): (r: string)
    ensures CleanSegment(r, S)
    ensures forall c :: c in r ==> c in p
    ensures CleanSegment(p, S) ==> r == p
    ensures KeepsOthers(p, r, S)
  {
    forall x | x !in S
      ensures multiset(StripEdges(CollapseSet(p, S), S))[x] == multiset(p)[x]
    {
      CollapseKeepsOthers(p, S, x);
      StripEdgesKeepsOthers(CollapseSet(p, S), S, x);
    }
    StrippedCollapseHasNoRuns(p, S);
    CollapseChars(p, S);
    StripEdgesChars(CollapseSet(p, S), S);
    CleanSegmentCollapses(p, S);
    StripEdges(CollapseSet(p, S), S)
  }

  /** A segment as the source processes it: one collapse per separator
      character in map iteration order `order`, then the strip loop. Any order
      gives the segment's TrimSegment, which is the collapse followed by the
      plain two-sided trim. */
  lemma TrimSegmentAsWritten(p: string, order: string)
    ensures StripEdges(FoldCollapse(p, order), Elems(order)) == TrimSegment(p, Elems(order))
    ensures TrimSegment(p, Elems(order))
         == TrimRight(TrimLeft(CollapseSet(p, Elems(order)), Elems(order)), Elems(order))
  {
    MapOrderIrrelevant(p, order);
    StripEdgesIsTrim(CollapseSet(p, Elems(order)), Elems(order));
  }

  /** Trimming a segment twice is trimming it once. */
  lemma TrimSegmentIdempotent(p: string, S: set<char>)
    ensures TrimSegment(TrimSegment(p, S), S) == TrimSegment(p, S)
  {
  }

  /** Applies `f` to every segment. */
  function MapParts(parts: seq<string>, f: string -> string): (r: seq<string>)
    ensures |r| == |parts|
  {
    seq(|parts|, k requires 0 <= k < |parts| => f(parts[k]))
  }

  /** Mapping over a list of segments works piece by piece. */
  lemma MapPartsAppend(x: seq<string>, y: seq<string>, f: string -> string)
    ensures MapParts(x + y, f) == MapParts(x, f) + MapParts(y, f)
  {
    var xy := x + y;
    forall k | 0 <= k < |xy|
      ensures MapParts(xy, f)[k] == (MapParts(x, f) + MapParts(y, f))[k]
    {
      if k < |x| {
        assert xy[k] == x[k];
      } else {
        assert xy[k] == y[k - |x|];
      }
    }
  }

  /** The per-segment loop of `trim`: part `k` of the result is input part `k`
      cleaned, keeping its code points outside `S`, and left alone when it was
      already clean. */
  function TrimParts(parts: seq<string>, S: set<char>): (r: seq<string>)
    ensures |r| == |parts|
    ensures forall k :: 0 <= k < |r| ==> CleanSegment(r[k], S)
    ensures forall k :: 0 <= k < |r| ==> KeepsOthers(parts[k], r[k], S)
    ensures forall k :: 0 <= k < |r| ==> CleanSegment(parts[k], S) ==> r[k] == parts[k]
  {
    MapParts(parts, p => TrimSegment(p, S))
  }

  /** Trimming dot-free segments leaves them dot-free. */
  lemma TrimPartsDotFree(parts: seq<string>, S: set<char>)
    requires forall k :: 0 <= k < |parts| ==> '.' !in parts[k]
    ensures forall k :: 0 <= k < |parts| ==> '.' !in TrimParts(parts, S)[k]
  {
  }

  /** Joining the trimmed segments brings in no code point the name lacked. */
  lemma TrimChars(source: string, S: set<char>)
    ensures forall c :: c in JoinDots(TrimParts(SplitDots(source), S)) ==> c in source
  {
    var parts := SplitDots(source);
    var trimmed := TrimParts(parts, S);
    SplitDotsDotFree(source);
    SplitDotsChars(source);
    TrimPartsDotFree(parts, S);
    JoinDotCount(trimmed);
    SplitDotsCount(source);
    forall c | c in JoinDots(trimmed)
      ensures c in source
    {
      JoinDotsChars(trimmed, c);
      if c != '.' {
        var k :| 0 <= k < |trimmed| && c in trimmed[k];
        assert c in parts[k];
      } else {
        assert multiset(source)['.'] > 0;
      }
    }
  }

  /** The `trim` stage, for the set `S` of the characters of its cutset string. */
  function Trim(source: string, S: set<char>): (r: string)
    ensures SplitDots(r) == TrimParts(SplitDots(source), S)
    ensures multiset(r)['.'] == multiset(source)['.']
    ensures CleanSegments(r, S)
    ensures forall c :: c in r ==> c in source
  {
    var parts := SplitDots(source);
    SplitDotsDotFree(source);
    TrimPartsDotFree(parts, S);
    SplitJoin(TrimParts(parts, S));
    JoinDotCount(TrimParts(parts, S));
    SplitDotsCount(source);
    TrimChars(source, S);
    JoinDots(TrimParts(parts, S))
  }

  /** `trim` removes only characters of `S`: every other code point, the dot
      included, keeps all its occurrences. */
  lemma {:induction false} TrimKeepsOthers(source: string, S: set<char>, x: char)
    requires x !in S
    ensures multiset(Trim(source, S))[x] == multiset(source)[x]
    decreases |source|
  {
    if x == '.' {
    } else if i :| 0 <= i < |source| && source[i] == '.' {
      var a, b := source[..i], source[i + 1..];
      assert source == a + "." + b;
      TrimAtDot(a, b, S);
      TrimKeepsOthers(a, S, x);
      TrimKeepsOthers(b, S, x);
    } else {
      TrimDotFree(source, S);
    }
  }

  /** A name whose segments are all clean is left alone by `trim`. */
  lemma TrimKeepsCleanName(t: string, S: set<char>)
    requires CleanSegments(t, S)
    ensures Trim(t, S) == t
  {
    var parts := SplitDots(t);
    assert TrimParts(parts, S) == parts;
    JoinSplit(t);
  }

  /** Trimming twice is trimming once. */
  lemma TrimIdempotent(s: string, S: set<char>)
    ensures Trim(Trim(s, S), S) == Trim(s, S)
  {
    TrimKeepsCleanName(Trim(s, S), S);
  }

  /** A name without dots is one segment, and trimming it trims that segment. */
  lemma TrimDotFree(p: string, S: set<char>)
    requires '.' !in p
    ensures Trim(p, S) == TrimSegment(p, S)
  {
    SplitDotFree(p);
    var parts := TrimParts([p], S);
    assert |parts| == 1 && parts[0] == TrimSegment([p][0], S);
    assert parts == [TrimSegment(p, S)];
  }

  /** Appending a code point after a different last one creates no run. */
  lemma NoRunsAppend(a: string, c: char, S: set<char>)
    requires NoRuns(a, S) && |a| > 0 && a[|a| - 1] != c
    ensures NoRuns(a + [c], S)
  {
    var r := a + [c];
    forall i | 0 < i < |r|
      ensures !(r[i] in S && r[i - 1] == r[i])
    {
      if i < |a| {
        assert r[i] == a[i] && r[i - 1] == a[i - 1];
      }
    }
  }

  /** A clean segment with one separator appended trims back to itself. */
  lemma TrimSegmentDropsTrailing(a: string, c: char, S: set<char>)
    requires |a| > 0 && CleanSegment(a, S) && c in S
    ensures TrimSegment(a + [c], S) == a
  {
    NoRunsAppend(a, c, S);
    CollapseKeepsRunFree(a + [c], S);
    assert [] + a + [c] == a + [c];
    StripEdgesAround([], a, [c], S);
  }

  /** `trim` works segment by segment: a dot separates what is trimmed on its
      left from what is trimmed on its right. */
  lemma TrimAtDot(a: string, b: string, S: set<char>)
    ensures Trim(a + "." + b, S) == Trim(a, S) + "." + Trim(b, S)
  {
    var pa, pb := SplitDots(a), SplitDots(b);
    SplitDotsAtDot(a, b);
    TrimPartsAppend(pa, pb, S);
    JoinDotsAppend(TrimParts(pa, S), TrimParts(pb, S));
  }

  /** Trimming a list of segments works piece by piece. */
  lemma TrimPartsAppend(x: seq<string>, y: seq<string>, S: set<char>)
    ensures TrimParts(x + y, S) == TrimParts(x, S) + TrimParts(y, S)
  {
    MapPartsAppend(x, y, p => TrimSegment(p, S));
  }

  /** Collapsing a segment wrapped in one separator on each side collapses what
      lies between and keeps the two separators. */
  lemma CollapseWrapped(c: char, m: string, S: set<char>)
    requires c in S && |m| > 0 && m[0] !in S && m[|m| - 1] !in S
    ensures CollapseSet([c] + m + [c], S) == [c] + CollapseSet(m, S) + [c]
  {
    assert [c] + m + [c] == [c] + (m + [c]);
    CollapseAppend(m, [c], S);
    CollapseAppend([c], m + [c], S);
    assert CollapseSet([c], S) == [c];
  }

  /** A segment wrapped in one separator on each side: trimming removes the two
      separators and collapses what lies between. */
  lemma TrimSegmentWrapped(c: char, m: string, S: set<char>)
    requires c in S && |m| > 0 && m[0] !in S && m[|m| - 1] !in S
    ensures TrimSegment([c] + m + [c], S) == CollapseSet(m, S)
  {
    CollapseWrapped(c, m, S);
    StripEdgesAround([c], CollapseSet(m, S), [c], S);
  }
}
