/**
 Collapsing runs of separator characters. For one character `c`, the
 regular expression `[c]{2,}` replaced by `c` turns every run of two or more
 copies of `c` into a single copy; `CollapseSet(s, {c})` is that
 replacement. The normaliser applies it once per separator character, in
 the iteration order of a Go map, which is unspecified; the lemmas below
 show that the order cannot change the outcome.
 */
module Collapse {
  import opened Runes

  /** No character of `S` occurs twice in a row. */
  predicate NoRuns(s: string, S: set<char>) {
    forall i :: 0 < i < |s| ==> !(s[i] in S && s[i - 1] == s[i])
  }

  /** Drops every character of `S` that repeats the one before it, so each run of
      a character of `S` shrinks to a single copy. */
  function CollapseSet(s: string, S: set<char>): (r: string)
    ensures |r| <= |s|
    ensures |s| > 0 ==> |r| > 0 && r[0] == s[0] && r[|r| - 1] == s[|s| - 1]
    decreases |s|
  {
    if |s| <= 1 then s
    else
      var rest := CollapseSet(s[1..], S);
      if s[0] in S && s[1] == s[0] then rest
      else [s[0]] + rest
  }

  /** The result of collapsing has no runs left. */
  lemma {:induction false} CollapseNoRuns(s: string, S: set<char>)
    ensures NoRuns(CollapseSet(s, S), S)
    decreases |s|
  {
    if |s| > 1 {
      CollapseNoRuns(s[1..], S);
      var rest := CollapseSet(s[1..], S);
      if !(s[0] in S && s[1] == s[0]) {
        var r := [s[0]] + rest;
        forall i | 0 < i < |r|
          ensures !(r[i] in S && r[i - 1] == r[i])
        {
          if i > 1 {
            assert r[i] == rest[i - 1] && r[i - 1] == rest[i - 2];
          }
        }
      }
    }
  }

  /** A string without runs is left alone. */
  lemma {:induction false} CollapseKeepsRunFree(s: string, S: set<char>)
    requires NoRuns(s, S)
    ensures CollapseSet(s, S) == s
    decreases |s|
  {
    if |s| > 1 {
      NoRunsTail(s, S);
      CollapseKeepsRunFree(s[1..], S);
      CollapseUnfold(s, S);
      assert s == [s[0]] + s[1..];
    }
  }

  /** Dropping the first code point keeps a string free of runs. */
  lemma NoRunsTail(s: string, S: set<char>)
    requires NoRuns(s, S) && |s| > 0
    ensures NoRuns(s[1..], S)
  {
    var t := s[1..];
    forall i | 0 < i < |t|
      ensures !(t[i] in S && t[i - 1] == t[i])
    {
      assert t[i] == s[i + 1] && t[i - 1] == s[i];
    }
  }

  /** Collapsing drops only repeated copies: every code point of the input is
      still there. */
  lemma {:induction false} CollapseChars(s: string, S: set<char>)
    ensures forall c :: c in CollapseSet(s, S) <==> c in s
    decreases |s|
  {
    if |s| > 1 {
      CollapseChars(s[1..], S);
      assert forall c :: c in s <==> c == s[0] || c in s[1..];
    }
  }

  /** Collapsing drops only copies of characters of `S`: every other code point
      keeps all its occurrences. */
  lemma {:induction false} CollapseKeepsOthers(s: string, S: set<char>, x: char)
    requires x !in S
    ensures multiset(CollapseSet(s, S))[x] == multiset(s)[x]
    decreases |s|
  {
    if |s| > 1 {
      CollapseKeepsOthers(s[1..], S, x);
      assert s == [s[0]] + s[1..];
    }
  }

  /** One step of CollapseSet, for a string given as its first code point and the rest. */
  lemma CollapseCons(c: char, t: string, S: set<char>)
    ensures CollapseSet([c] + t, S) ==
              if |t| > 0 && c in S && t[0] == c then CollapseSet(t, S)
              else [c] + CollapseSet(t, S)
  {
    assert ([c] + t)[1..] == t;
    if |t| == 0 {
      assert [c] + t == [c];
    }
  }

  /** Collapsing distributes over a concatenation whose seam is not inside a run. */
  lemma {:induction false} CollapseAppend(a: string, b: string, S: set<char>)
    requires |a| == 0 || |b| == 0 || !(b[0] in S && a[|a| - 1] == b[0])
    ensures CollapseSet(a + b, S) == CollapseSet(a, S) + CollapseSet(b, S)
  {
    if |a| == 0 {
      assert a + b == b;
    } else if |a| == 1 {
      CollapseAppendSingle(a[0], b, S);
      assert a == [a[0]];
    } else {
      CollapseAppend(a[1..], b, S);
      CollapseAppendStep(a, b, S);
    }
  }

  /** The base case of CollapseAppend: one code point in front. */
  lemma CollapseAppendSingle(c: char, b: string, S: set<char>)
    requires |b| == 0 || !(b[0] in S && c == b[0])
    ensures CollapseSet([c] + b, S) == [c] + CollapseSet(b, S)
  {
    CollapseCons(c, b, S);
  }

  /** The inductive step of CollapseAppend: the first code point of a string
      of two or more decides the same way whatever follows the string. */
  lemma CollapseAppendStep(a: string, b: string, S: set<char>)
    requires |a| > 1
    requires CollapseSet(a[1..] + b, S) == CollapseSet(a[1..], S) + CollapseSet(b, S)
    ensures CollapseSet(a + b, S) == CollapseSet(a, S) + CollapseSet(b, S)
  {
    CollapseUnfold(a, S);
    CollapseUnfold(a + b, S);
    assert (a + b)[0] == a[0] && (a + b)[1] == a[1];
    assert (a + b)[1..] == a[1..] + b;
    PrependMaybe(a[0], !(a[0] in S && a[1] == a[0]), CollapseSet(a[1..], S), CollapseSet(b, S));
  }

  /** Prepending a code point or not, before or after appending `y`. */
  lemma PrependMaybe(c: char, keep: bool, x: string, y: string)
    ensures (if keep then [c] + (x + y) else x + y) == (if keep then [c] + x else x) + y
  {
    if keep {
      assert [c] + (x + y) == ([c] + x) + y;
    }
  }

  /** One unfolding of CollapseSet on a string of two or more code points. */
  lemma CollapseUnfold(s: string, S: set<char>)
    requires |s| > 1
    ensures CollapseSet(s, S) == if s[0] in S && s[1] == s[0] then CollapseSet(s[1..], S)
                                 else [s[0]] + CollapseSet(s[1..], S)
  {
  }


  /** A run of a character of `S` collapses to one copy. */
  lemma {:induction false} CollapseRun(c: char, n: nat, S: set<char>)
    requires c in S && n >= 1
    ensures CollapseSet(seq(n, _ => c), S) == [c]
  {
    if n > 1 {
      CollapseRun(c, n - 1, S);
      assert seq(n, _ => c)[1..] == seq(n - 1, _ => c);
    }
  }

  /** Collapsing with `A` and then with `{c}` is collapsing with `A + {c}`. */
  lemma {:induction false} CollapseCompose(s: string, A: set<char>, c: char)
    ensures CollapseSet(CollapseSet(s, A), {c}) == CollapseSet(s, A + {c})
    decreases |s|
  {
    if |s| > 1 {
      CollapseCompose(s[1..], A, c);
      var t := CollapseSet(s[1..], A);
      if !(s[0] in A && s[1] == s[0]) {
        assert CollapseSet(s, A) == [s[0]] + t;
        assert ([s[0]] + t)[1..] == t;
      }
    }
  }

  /** The per-character collapse loop, visiting the separator characters in `order`. */
  function FoldCollapse(s: string, order: string): (r: string)
    ensures |r| <= |s|
    ensures |s| > 0 ==> |r| > 0 && r[0] == s[0] && r[|r| - 1] == s[|s| - 1]
    decreases |order|
  {
    if |order| == 0 then s
    else FoldCollapse(CollapseSet(s, {order[0]}), order[1..])
  }

  /** The loop invariant of FoldCollapse: after a collapse with `A`, the rest of the order
      adds its characters to `A`. */
  lemma {:induction false} FoldCollapseFrom(s: string, A: set<char>, order: string)
    ensures FoldCollapse(CollapseSet(s, A), order) == CollapseSet(s, A + Elems(order))
    decreases |order|
  {
    if |order| == 0 {
      assert A + Elems(order) == A;
    } else {
      CollapseCompose(s, A, order[0]);
      FoldCollapseFrom(s, A + {order[0]}, order[1..]);
      ElemsCons(order);
      assert A + {order[0]} + Elems(order[1..]) == A + Elems(order);
    }
  }

  /** Whatever order a map iteration visits the separator characters in, the
      per-character collapses add up to collapsing all of them at once. */
  lemma MapOrderIrrelevant(s: string, order: string)
    ensures FoldCollapse(s, order) == CollapseSet(s, Elems(order))
  {
    CollapseKeepsRunFree(s, {});
    FoldCollapseFrom(s, {}, order);
    assert {} + Elems(order) == Elems(order);
  }

  /** Two visiting orders of the same characters give the same result. */
  lemma AnyTwoOrdersAgree(s: string, order1: string, order2: string)
    requires Elems(order1) == Elems(order2)
    ensures FoldCollapse(s, order1) == FoldCollapse(s, order2)
  {
    MapOrderIrrelevant(s, order1);
    MapOrderIrrelevant(s, order2);
  }

  /** Collapsing runs of one character never creates a run of another. */
  lemma NoNewRuns(s: string, c: char, d: char)
    requires NoRuns(s, {d})
    ensures NoRuns(CollapseSet(s, {c}), {d})
  {
    CollapseKeepsRunFree(s, {d});
    CollapseCompose(s, {d}, c);
    CollapseNoRuns(s, {d} + {c});
    NoRunsSubset(CollapseSet(s, {d} + {c}), {d} + {c}, {d});
  }

  /** A string without runs of the characters of `A` has none of any fewer characters. */
  lemma NoRunsSubset(s: string, A: set<char>, B: set<char>)
    requires NoRuns(s, A) && B <= A
    ensures NoRuns(s, B)
  {
  }

  /** A run of a separator between two words shrinks to one copy, and each word
      is collapsed on its own. */
  lemma CollapseSeparatorRun(w1: string, c: char, k: nat, w2: string, S: set<char>)
    requires c in S && k >= 1 && |w1| > 0 && |w2| > 0
    requires w1[|w1| - 1] !in S && w2[0] !in S
    ensures CollapseSet(w1 + seq(k, _ => c) + w2, S) == CollapseSet(w1, S) + ([c] + CollapseSet(w2, S))
  {
    var run := seq(k, _ => c);
    assert w1 + run + w2 == w1 + (run + w2);
    CollapseAppend(run, w2, S);
    CollapseAppend(w1, run + w2, S);
    CollapseRun(c, k, S);
  }
}
