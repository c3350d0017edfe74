/**
 The package's first test of FixForShell: separators, control characters and
 punctuation around "test 123.45", followed stage by stage. The name holds
 three dots, one of them inside the number, so `trim` sees three segments.
 */
module MixedExample {
  import opened Runes
  import opened Strip
  import opened Collapse
  import opened Edges
  import opened Trimming
  import opened Fix
  import opened StageExamples

  /** Splits the mixed test name before its punctuation. */
  lemma MixedHalves(s: string)
    requires s == "--  __\U{7}\U{8}\U{C}\n\r\U{B}\t  test 123.45 _ () {} :; | *? <> \" '--.png-"
    ensures s == "--  __\U{7}\U{8}\U{C}\n\r\U{B}\t  test 123.45 _ " + "() {} :; | *? <> \" '--.png-"
  {
  }

  /** Splits the first half into the leading separators, the control characters, a space and
      the text. */
  lemma MixedFront(h: string)
    requires h == "--  __\U{7}\U{8}\U{C}\n\r\U{B}\t  test 123.45 _ "
    ensures h == "--  __" + Controls + " " + " test 123.45 _ "
  {
  }

  /** Splits the second half into the punctuation and the trailing "--.png-". */
  lemma MixedBack(t: string)
    requires t == "() {} :; | *? <> \" '--.png-"
    ensures t == "() {} :; | *? <> \" '" + "--.png-"
  {
  }

  /** So the mixed test name is six pieces, one of them all control characters. */
  lemma MixedPieces(s: string)
    requires s == "--  __\U{7}\U{8}\U{C}\n\r\U{B}\t  test 123.45 _ () {} :; | *? <> \" '--.png-"
    ensures s == "--  __" + Controls + " " + " test 123.45 _ " + "() {} :; | *? <> \" '" + "--.png-"
  {
    MixedHalves(s);
    MixedFront("--  __\U{7}\U{8}\U{C}\n\r\U{B}\t  test 123.45 _ ");
    MixedBack("() {} :; | *? <> \" '--.png-");
    var front := "--  __" + Controls + " " + " test 123.45 _ ";
    assert front + ("() {} :; | *? <> \" '" + "--.png-") == front + "() {} :; | *? <> \" '" + "--.png-";
  }

  /** StripControl distributes over six pieces. */
  lemma ControlOverSix(a: string, b: string, c: string, d: string, e: string, f: string)
    ensures StripControl(a + b + c + d + e + f)
         == StripControl(a) + StripControl(b) + StripControl(c) + StripControl(d) + StripControl(e) + StripControl(f)
  {
    StripControlCharacterwise(a + b + c + d + e, f, ' ');
    StripControlCharacterwise(a + b + c + d, e, ' ');
    StripControlCharacterwise(a + b + c, d, ' ');
    StripControlCharacterwise(a + b, c, ' ');
    StripControlCharacterwise(a, b, ' ');
  }

  /** StripSpecial distributes over five pieces. */
  lemma SpecialOverFive(a: string, b: string, c: string, d: string, e: string)
    ensures StripSpecial(a + b + c + d + e)
         == StripSpecial(a) + StripSpecial(b) + StripSpecial(c) + StripSpecial(d) + StripSpecial(e)
  {
    StripSpecialCharacterwise(a + b + c + d, e, ' ');
    StripSpecialCharacterwise(a + b + c, d, ' ');
    StripSpecialCharacterwise(a + b, c, ' ');
    StripSpecialCharacterwise(a, b, ' ');
  }

  /** Replacing spaces distributes over five pieces. */
  lemma ReplaceOverFive(a: string, b: string, c: string, d: string, e: string)
    ensures ReplaceSpaces(a + b + c + d + e, '_')
         == ReplaceSpaces(a, '_') + ReplaceSpaces(b, '_') + ReplaceSpaces(c, '_')
            + ReplaceSpaces(d, '_') + ReplaceSpaces(e, '_')
  {
    ReplaceSpacesAppend(a + b + c + d, e, '_');
    ReplaceSpacesAppend(a + b + c, d, '_');
    ReplaceSpacesAppend(a + b, c, '_');
    ReplaceSpacesAppend(a, b, '_');
  }

  /** The pieces around the text are neither control nor special characters;
      each piece is checked on its own, which keeps every proof small. */
  lemma DashesKept()
    ensures StripControl("--  __") == "--  __" && StripSpecial("--  __") == "--  __"
  {
    assert forall x :: x in "--  __" ==> !IsControl(x) && !IsSpecial(x);
  }

  /** The lone space after the control characters is kept by both stages. */
  lemma SpaceKept()
    ensures StripControl(" ") == " " && StripSpecial(" ") == " "
  {
    assert forall x :: x in " " ==> !IsControl(x) && !IsSpecial(x);
  }

  /** So is the trailing "--.png-". */
  lemma ExtensionKept()
    ensures StripControl("--.png-") == "--.png-" && StripSpecial("--.png-") == "--.png-"
  {
    assert forall x :: x in "--.png-" ==> !IsControl(x) && !IsSpecial(x);
  }

  /** The three pieces around the text, gathered for the first two stages. */
  lemma OuterPiecesKept()
    ensures StripControl("--  __") == "--  __" && StripControl(" ") == " " && StripControl("--.png-") == "--.png-"
    ensures StripSpecial("--  __") == "--  __" && StripSpecial(" ") == " " && StripSpecial("--.png-") == "--.png-"
  {
    DashesKept();
    SpaceKept();
    ExtensionKept();
  }

  /** Stage one over six pieces, the second of which is all control characters. */
  lemma ControlStage(a: string, b: string, c: string, d: string, e: string, f: string)
    requires StripControl(a) == a && StripControl(b) == [] && StripControl(c) == c
    requires StripControl(d) == d && StripControl(e) == e && StripControl(f) == f
    ensures StripControl(a + b + c + d + e + f) == a + c + d + e + f
  {
    ControlOverSix(a, b, c, d, e, f);
    assert a + [] == a;
  }

  /** Stage one: only the seven control characters go. */
  lemma MixedStripControl(s: string)
    requires s == "--  __\U{7}\U{8}\U{C}\n\r\U{B}\t  test 123.45 _ () {} :; | *? <> \" '--.png-"
    ensures StripControl(s) == "--  __" + " " + " test 123.45 _ " + "() {} :; | *? <> \" '" + "--.png-"
  {
    MixedPieces(s);
    ControlsFacts();
    OuterPiecesKept();
    TextHasNoControl();
    PunctuationHasNoControl();
    ControlStage("--  __", Controls, " ", " test 123.45 _ ", "() {} :; | *? <> \" '", "--.png-");
  }

  /** Stage two over five pieces, only the fourth of which changes. */
  lemma SpecialStage(a: string, b: string, c: string, d: string, e: string, d': string)
    requires StripSpecial(a) == a && StripSpecial(b) == b && StripSpecial(c) == c
    requires StripSpecial(d) == d' && StripSpecial(e) == e
    ensures StripSpecial(a + b + c + d + e) == a + b + c + d' + e
  {
    SpecialOverFive(a, b, c, d, e);
  }

  /** Stage two: of the punctuation only its spaces stay. */
  lemma MixedStripSpecial(s: string)
    requires s == "--  __\U{7}\U{8}\U{C}\n\r\U{B}\t  test 123.45 _ () {} :; | *? <> \" '--.png-"
    ensures StripSpecial(StripControl(s)) == "--  __" + " " + " test 123.45 _ " + "       " + "--.png-"
  {
    MixedStripControl(s);
    OuterPiecesKept();
    TextIsPlain();
    assert StripSpecial(" test 123.45 _ ") == " test 123.45 _ ";
    PunctuationStripped("() {} :; | *? <> \" '");
    SpecialStage("--  __", " ", " test 123.45 _ ", "() {} :; | *? <> \" '", "--.png-", "       ");
  }

  /** Splits the leading "--  __" at its two spaces. */
  lemma DashesWords()
    ensures "--  __" == "--" + " " + "" + " " + "__"
    ensures "--" + "_" + "" + "_" + "__" == "--____"
    ensures ' ' !in "--" && ' ' !in "" && ' ' !in "__"
  {
  }

  /** The two spaces of the leading "--  __" become underscores. */
  lemma DashesReplaced()
    ensures ReplaceSpaces("--  __", '_') == "--____"
  {
    DashesWords();
    SpaceThenWord("--", "");
    SpaceThenWord("--" + " " + "", "__");
  }

  /** The lone space and the seven spaces left of the punctuation become underscores. */
  lemma SpacesReplaced()
    ensures ReplaceSpaces(" ", '_') == "_"
    ensures ReplaceSpaces("       ", '_') == "_______"
  {
    var r := ReplaceSpaces("       ", '_');
    assert forall i :: 0 <= i < 7 ==> r[i] == '_';
  }

  /** The trailing "--.png-" has no space to replace. */
  lemma ExtensionReplaced()
    ensures ReplaceSpaces("--.png-", '_') == "--.png-"
  {
    assert ' ' !in "--.png-";
  }

  /** The pieces around the text, gathered for the third stage. */
  lemma SpacePiecesReplaced()
    ensures ReplaceSpaces("--  __", '_') == "--____"
    ensures ReplaceSpaces(" ", '_') == "_"
    ensures ReplaceSpaces("       ", '_') == "_______"
    ensures ReplaceSpaces("--.png-", '_') == "--.png-"
  {
    DashesReplaced();
    SpacesReplaced();
    ExtensionReplaced();
  }

  /** Stage three over five pieces. */
  lemma ReplaceStage(a: string, b: string, c: string, d: string, e: string,
                     a': string, b': string, c': string, d': string, e': string)
    requires ReplaceSpaces(a, '_') == a' && ReplaceSpaces(b, '_') == b' && ReplaceSpaces(c, '_') == c'
    requires ReplaceSpaces(d, '_') == d' && ReplaceSpaces(e, '_') == e'
    ensures ReplaceSpaces(a + b + c + d + e, '_') == a' + b' + c' + d' + e'
  {
    ReplaceOverFive(a, b, c, d, e);
  }

  /** Stage three: every space becomes an underscore. */
  lemma MixedReplaceSpaces(s: string)
    requires s == "--  __\U{7}\U{8}\U{C}\n\r\U{B}\t  test 123.45 _ () {} :; | *? <> \" '--.png-"
    ensures ReplaceSpaces(StripSpecial(StripControl(s)), '_')
         == "--____" + "_" + "_test_123.45___" + "_______" + "--.png-"
  {
    MixedStripSpecial(s);
    SpacePiecesReplaced();
    TextReplaced(" test 123.45 _ ");
    ReplaceStage("--  __", " ", " test 123.45 _ ", "       ", "--.png-",
                 "--____", "_", "_test_123.45___", "_______", "--.png-");
  }

  /** The name after three stages, cut at its two dots into three segments. */
  lemma MixedSegments(r: string)
    requires r == "--____" + "_" + "_test_123.45___" + "_______" + "--.png-"
    ensures r == "--______test_123" + "." + "45__________--" + "." + "png-"
  {
  }

  /** Two runs of different separators in front of a word that starts with
      another character: each run shrinks to one copy. */
  lemma RunsBeforeWord(d: char, m: nat, u: char, n: nat, w: string, S: set<char>)
    requires d in S && u in S && d != u && m >= 1 && n >= 1
    requires |w| > 0 && w[0] !in S && NoRuns(w, S)
    ensures CollapseSet(seq(m, _ => d) + (seq(n, _ => u) + w), S) == [d] + ([u] + w)
  {
    CollapseRun(d, m, S);
    CollapseRun(u, n, S);
    CollapseKeepsRunFree(w, S);
    CollapseAppend(seq(n, _ => u), w, S);
    CollapseAppend(seq(m, _ => d), seq(n, _ => u) + w, S);
  }

  /** A word followed by two runs of different separators: each run shrinks
      to one copy. */
  lemma WordBeforeRuns(w: string, u: char, n: nat, d: char, m: nat, S: set<char>)
    requires d in S && u in S && d != u && m >= 1 && n >= 1
    requires |w| > 0 && w[|w| - 1] !in S && NoRuns(w, S)
    ensures CollapseSet(w + (seq(n, _ => u) + seq(m, _ => d)), S) == w + ([u] + [d])
  {
    CollapseRun(d, m, S);
    CollapseRun(u, n, S);
    CollapseKeepsRunFree(w, S);
    CollapseAppend(seq(n, _ => u), seq(m, _ => d), S);
    CollapseAppend(w, seq(n, _ => u) + seq(m, _ => d), S);
  }

  /** The first segment is two dashes and six underscores in front of "test_123". */
  lemma FirstSegmentPieces()
    ensures "--______test_123" == seq(2, _ => '-') + (seq(6, _ => '_') + "test_123")
  {
  }

  /** The word "test_123" is clean and the first segment is dot-free. */
  lemma FirstSegmentWord()
    ensures NoRuns("test_123", Separators) && '.' !in "--______test_123"
    ensures "test_123"[0] !in Separators && "test_123"[7] !in Separators
    ensures ['-'] + (['_'] + "test_123") == ['-', '_'] + "test_123" + []
  {
  }

  /** Collapsing the first segment leaves one dash and one underscore in
      front of the word. */
  lemma FirstSegmentCollapse()
    ensures CollapseSet("--______test_123", Separators) == ['-', '_'] + "test_123" + []
  {
    FirstSegmentPieces();
    FirstSegmentWord();
    RunsBeforeWord('-', 2, '_', 6, "test_123", Separators);
  }

  /** The first segment: both runs shrink and then go with the edges. */
  lemma FirstSegment()
    ensures Trim("--______test_123", Separators) == "test_123"
  {
    FirstSegmentWord();
    FirstSegmentCollapse();
    StripEdgesAround(['-', '_'], "test_123", [], Separators);
    TrimDotFree("--______test_123", Separators);
  }

  /** The middle segment is "45" followed by ten underscores and two dashes. */
  lemma MiddleSegmentPieces()
    ensures "45__________--" == "45" + (seq(10, _ => '_') + seq(2, _ => '-'))
  {
  }

  /** The word "45" is clean and the middle segment is dot-free. */
  lemma MiddleSegmentWord()
    ensures NoRuns("45", Separators) && '.' !in "45__________--"
    ensures "45"[0] !in Separators && "45"[1] !in Separators
    ensures "45" + (['_'] + ['-']) == [] + "45" + ['_', '-']
  {
  }

  /** Collapsing the middle segment leaves one underscore and one dash behind the word. */
  lemma MiddleSegmentCollapse()
    ensures CollapseSet("45__________--", Separators) == [] + "45" + ['_', '-']
  {
    MiddleSegmentPieces();
    MiddleSegmentWord();
    WordBeforeRuns("45", '_', 10, '-', 2, Separators);
  }

  /** The middle segment: the fraction digits keep nothing of what follows them. */
  lemma MiddleSegment()
    ensures Trim("45__________--", Separators) == "45"
  {
    MiddleSegmentWord();
    MiddleSegmentCollapse();
    StripEdgesAround([], "45", ['_', '-'], Separators);
    TrimDotFree("45__________--", Separators);
  }

  /** The last segment, "png-", loses its trailing dash. */
  lemma LastSegment()
    ensures Trim("png-", Separators) == "png"
  {
    assert CleanSegment("png", Separators);
    assert "png-" == "png" + ['-'];
    TrimSegmentDropsTrailing("png", '-', Separators);
    TrimDotFree("png-", Separators);
  }

  /** Stage four: each of the three segments is trimmed on its own. */
  lemma MixedTrim(r: string)
    requires r == "--____" + "_" + "_test_123.45___" + "_______" + "--.png-"
    ensures Trim(r, Separators) == "test_123" + "." + "45" + "." + "png"
  {
    MixedSegments(r);
    TrimAtDot("--______test_123" + "." + "45__________--", "png-", Separators);
    TrimAtDot("--______test_123", "45__________--", Separators);
    FirstSegment();
    MiddleSegment();
    LastSegment();
  }

  /** The trimmed segments spell the expected result. */
  lemma MixedResult()
    ensures "test_123" + "." + "45" + "." + "png" == "test_123.45.png"
  {
  }

  /** fn_test.go: the name "--  __", the control characters, "  test 123.45 _ ",
      the punctuation and "--.png-" fixes for the shell to "test_123.45.png". */
  lemma FixForShellMixedExample(s: string)
    requires s == "--  __\U{7}\U{8}\U{C}\n\r\U{B}\t  test 123.45 _ () {} :; | *? <> \" '--.png-"
    ensures FixForShell(s) == "test_123.45.png"
  {
    MixedReplaceSpaces(s);
    MixedTrim(ReplaceSpaces(StripSpecial(StripControl(s)), '_'));
    MixedResult();
  }
}
