/**
 The worked examples of `trim` in the package's test file, derived from the
 general laws of the stage. Long string literals are compared with
 concatenations of short pieces in lemmas of their own, and the pieces are
 handled by lemmas over arbitrary words, so that every step stays small.
 */
module Examples {
  import opened Runes
  import opened Segments
  import opened Collapse
  import opened Edges
  import opened Trimming

  /** A lower-case ASCII letter, as in the words of the trim tests. */
  predicate Lower(c: char) {
    'a' <= c <= 'z'
  }

  /** A nonempty word in which `c` does not occur. */
  predicate WordWithout(w: string, c: char) {
    |w| > 0 && forall i :: 0 <= i < |w| ==> w[i] != c
  }

  /** A run of copies of `c`. */
  predicate RunOf(run: string, c: char) {
    |run| >= 1 && forall i :: 0 <= i < |run| ==> run[i] == c
  }

  /** The words of the trim tests are lower-case. */
  lemma LowerWords(c: char)
    requires !Lower(c)
    ensures WordWithout("this", c) && WordWithout("is", c) && WordWithout("a", c) && WordWithout("test", c)
  {
  }

  /** A word, a run of the separator `c`, and a rest that starts with a
      non-separator: the run shrinks to one copy and the rest collapses on its own. */
  lemma CollapseWordRun(w: string, c: char, k: nat, rest: string, r: string)
    requires k >= 1 && WordWithout(w, c) && |rest| > 0 && rest[0] != c
    requires CollapseSet(rest, {c}) == r
    ensures CollapseSet(w + seq(k, _ => c) + rest, {c}) == w + ([c] + r)
  {
    WordCollapses(w, c);
    CollapseSeparatorRun(w, c, k, rest, {c});
  }

  /** A word without `c` has no run of `c` to collapse. */
  lemma WordCollapses(w: string, c: char)
    requires WordWithout(w, c)
    ensures CollapseSet(w, {c}) == w
  {
    assert NoRuns(w, {c});
    CollapseKeepsRunFree(w, {c});
  }

  /** The segment before the dot in the trim tests holds no dot. */
  lemma TrimTestLeftDotFree(c: char, run: string)
    requires c != '.' && RunOf(run, c)
    ensures '.' !in [c] + "this" + [c] + "is" + [c, c] + "a" + run + "test" + [c]
  {
    assert '.' !in "this" && '.' !in "is" && '.' !in "a" && '.' !in "test" && '.' !in run;
  }

  /** Writes that segment with its separator runs as `seq` runs. */
  lemma TrimTestLeftPieces(c: char, run: string)
    requires RunOf(run, c)
    ensures [c] + "this" + [c] + "is" + [c, c] + "a" + run + "test" + [c]
         == [c] + ("this" + seq(1, _ => c) + ("is" + seq(2, _ => c) + ("a" + seq(|run|, _ => c) + "test"))) + [c]
  {
    assert seq(1, _ => c) == [c] && seq(2, _ => c) == [c, c] && seq(|run|, _ => c) == run;
  }

  /** The left segment of the trim tests collapses and loses its outer separators. */
  lemma TrimTestLeft(c: char, run: string)
    requires c != '.' && !Lower(c) && RunOf(run, c)
    ensures TrimSegment([c] + "this" + [c] + "is" + [c, c] + "a" + run + "test" + [c], {c})
         == "this" + ([c] + ("is" + ([c] + ("a" + ([c] + "test")))))
  {
    LowerWords(c);
    var tail := "a" + seq(|run|, _ => c) + "test";
    var mid := "is" + seq(2, _ => c) + tail;
    var m := "this" + seq(1, _ => c) + mid;
    TrimTestLeftPieces(c, run);
    WordCollapses("test", c);
    CollapseWordRun("a", c, |run|, "test", "test");
    CollapseWordRun("is", c, 2, tail, "a" + ([c] + "test"));
    CollapseWordRun("this", c, 1, mid, "is" + ([c] + ("a" + ([c] + "test"))));
    TrimSegmentWrapped(c, m, {c});
  }

  /** The right segment of the trim tests loses its trailing separator. */
  lemma TrimTestRight(c: char)
    requires c != '.' && !Lower(c)
    ensures Trim("png" + [c], {c}) == "png"
  {
    assert CleanSegment("png", {c});
    TrimSegmentDropsTrailing("png", c, {c});
    TrimDotFree("png" + [c], {c});
  }

  /** The trim tests, for any separator `c` that is neither a dot nor a
      lower-case letter and any run of `c` before "test":
      "-this-is--a----test-.png-" with `c` in place of '-'. */
  lemma TrimTestShape(c: char, run: string, s: string)
    requires c != '.' && !Lower(c) && RunOf(run, c)
    requires s == ([c] + "this" + [c] + "is" + [c, c] + "a" + run + "test" + [c]) + "." + ("png" + [c])
    ensures Trim(s, {c}) == "this" + ([c] + ("is" + ([c] + ("a" + ([c] + "test"))))) + "." + "png"
  {
    var left := [c] + "this" + [c] + "is" + [c, c] + "a" + run + "test" + [c];
    TrimAtDot(left, "png" + [c], {c});
    TrimTestLeftDotFree(c, run);
    TrimTestLeft(c, run);
    TrimDotFree(left, {c});
    TrimTestRight(c);
  }

  /** The cutset of one character is that character. */
  lemma ElemsSingle(c: char)
    ensures Elems([c]) == {c}
  {
  }

  /** Splits the test name "-this-is--a----test-.png-" and its expected result into the
      shape above. */
  lemma DashPieces(s: string)
    requires s == "-this-is--a----test-.png-"
    ensures "-" == ['-']
    ensures s == (['-'] + "this" + ['-'] + "is" + ['-', '-'] + "a" + "----" + "test" + ['-']) + "." + ("png" + ['-'])
    ensures "this-is-a-test.png" == "this" + (['-'] + ("is" + (['-'] + ("a" + (['-'] + "test"))))) + "." + "png"
  {
  }

  /** Splits the test name "_this_is__a___test_.png_" and its expected result into the shape
      above. */
  lemma UnderscorePieces(s: string)
    requires s == "_this_is__a___test_.png_"
    ensures "_" == ['_']
    ensures s == (['_'] + "this" + ['_'] + "is" + ['_', '_'] + "a" + "___" + "test" + ['_']) + "." + ("png" + ['_'])
    ensures "this_is_a_test.png" == "this" + (['_'] + ("is" + (['_'] + ("a" + (['_'] + "test"))))) + "." + "png"
  {
  }

  /** fn_test.go: trim("-this-is--a----test-.png-", "-") is "this-is-a-test.png". */
  lemma TrimDashExample(s: string)
    requires s == "-this-is--a----test-.png-"
    ensures Trim(s, Elems("-")) == "this-is-a-test.png"
  {
    DashPieces(s);
    TrimTestShape('-', "----", s);
    ElemsSingle('-');
  }

  /** fn_test.go: trim("_this_is__a___test_.png_", "_") is "this_is_a_test.png". */
  lemma TrimUnderscoreExample(s: string)
    requires s == "_this_is__a___test_.png_"
    ensures Trim(s, Elems("_")) == "this_is_a_test.png"
  {
    UnderscorePieces(s);
    TrimTestShape('_', "___", s);
    ElemsSingle('_');
  }
}
