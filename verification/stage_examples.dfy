/**
 The worked examples of the character-level stages in the package's test file.
 Every test string is first shown equal to a concatenation of short pieces, in
 a lemma of its own; the stage is then pushed through the pieces one at a
 time with the distribution laws of the stage.
 */
module StageExamples {
  import opened Runes
  import opened Strip

  /** The control characters of the character-stage tests: BEL, BS, FF, LF, CR, VT, TAB. */
  const Controls := "\U{7}\U{8}\U{C}\n\r\U{B}\t"

  /** No code point of `y` is special. */
  predicate Plain(y: string) {
    forall c :: c in y ==> !IsSpecial(c)
  }

  /** Every code point of `y` is special. */
  predicate AllSpecial(y: string) {
    forall c :: c in y ==> IsSpecial(c)
  }

  /** The seven control characters of the test input: stripped by the first
      stage, kept by the other two. */
  lemma ControlsFacts()
    ensures StripControl(Controls) == []
    ensures StripSpecial(Controls) == Controls
    ensures ReplaceSpaces(Controls, '_') == Controls
  {
    assert forall x :: x in Controls ==> IsControl(x) && !IsSpecial(x) && x != ' ';
  }

  /** The text part " test 123.45 _ " of the test input has no control character. */
  lemma TextHasNoControl()
    ensures StripControl(" test 123.45 _ ") == " test 123.45 _ "
  {
    assert forall x :: x in " test 123.45 _ " ==> !IsControl(x);
  }

  /** Lower-case ASCII letters, digits, the space and the three cutset and dot
      characters `_`, `-` and `.`. */
  predicate Ordinary(c: char) {
    ('a' <= c <= 'z') || ('0' <= c <= '9') || c == ' ' || c == '_' || c == '-' || c == '.'
  }

  /** No ordinary code point is special. */
  lemma OrdinaryNotSpecial(c: char)
    requires Ordinary(c)
    ensures !IsSpecial(c)
  {
  }

  /** A string of ordinary code points has no special character. */
  lemma OrdinaryIsPlain(y: string)
    requires forall i :: 0 <= i < |y| ==> Ordinary(y[i])
    ensures Plain(y)
  {
    forall c | c in y
      ensures !IsSpecial(c)
    {
      var i :| 0 <= i < |y| && y[i] == c;
      OrdinaryNotSpecial(c);
    }
  }

  /** The text part of the test input has no special character either. */
  lemma TextIsPlain()
    ensures Plain(" test 123.45 _ ")
  {
    OrdinaryIsPlain(" test 123.45 _ ");
  }

  /** The punctuation part of the test input has no control character. */
  lemma PunctuationHasNoControl()
    ensures StripControl("() {} :; | *? <> \" '") == "() {} :; | *? <> \" '"
  {
    assert forall x :: x in "() {} :; | *? <> \" '" ==> !IsControl(x);
  }

  /** Splits the test input into its control, text and punctuation parts. */
  lemma TestInputPieces(s: string)
    requires s == "\U{7}\U{8}\U{C}\n\r\U{B}\t test 123.45 _ () {} :; | *? <> \" '"
    ensures s == Controls + " test 123.45 _ " + "() {} :; | *? <> \" '"
  {
  }

  /** The text and punctuation parts spell the expected output of stripControl. */
  lemma StripControlOutput()
    ensures [] + " test 123.45 _ " + "() {} :; | *? <> \" '" == " test 123.45 _ () {} :; | *? <> \" '"
  {
  }

  /** fn_test.go: the control characters go and everything else stays. */
  lemma StripControlExample(s: string)
    requires s == "\U{7}\U{8}\U{C}\n\r\U{B}\t test 123.45 _ () {} :; | *? <> \" '"
    ensures StripControl(s) == " test 123.45 _ () {} :; | *? <> \" '"
  {
    TestInputPieces(s);
    ControlsFacts();
    TextHasNoControl();
    PunctuationHasNoControl();
    StripControlCharacterwise(Controls + " test 123.45 _ ", "() {} :; | *? <> \" '", ' ');
    StripControlCharacterwise(Controls, " test 123.45 _ ", ' ');
    StripControlOutput();
  }

  /** Appending a piece that is all special characters changes nothing. */
  lemma DropSpecials(x: string, y: string)
    requires AllSpecial(y)
    ensures StripSpecial(x + y) == StripSpecial(x)
  {
    StripSpecialCharacterwise(x, y, ' ');
  }

  /** Appending a piece without special characters keeps it. */
  lemma KeepPlain(x: string, y: string)
    requires Plain(y)
    ensures StripSpecial(x + y) == StripSpecial(x) + y
  {
    StripSpecialCharacterwise(x, y, ' ');
  }

  /** The punctuation of the character-stage tests, word by word. */
  lemma PunctuationWords(p: string)
    requires p == "() {} :; | *? <> \" '"
    ensures p == "" + "()" + " " + "{}" + " " + ":;" + " " + "|" + " " + "*?" + " " + "<>" + " " + "\"" + " " + "'"
  {
  }

  /** Splits the expected output of stripSpecial into its control, text and space parts. */
  lemma SpecialTestOutput(w: string)
    requires w == "\U{7}\U{8}\U{C}\n\r\U{B}\t test 123.45 _        "
    ensures w == Controls + " test 123.45 _ " + "       "
  {
  }

  /** The first four punctuation words, "()", "{}", ":;" and "|", leave their
      three spaces. */
  lemma SpecialTailA(x: string)
    ensures StripSpecial(x + "()" + " " + "{}" + " " + ":;" + " " + "|") == StripSpecial(x) + " " + " " + " "
  {
    DropSpecials(x, "()");
    KeepPlain(x + "()", " ");
    DropSpecials(x + "()" + " ", "{}");
    KeepPlain(x + "()" + " " + "{}", " ");
    DropSpecials(x + "()" + " " + "{}" + " ", ":;");
    KeepPlain(x + "()" + " " + "{}" + " " + ":;", " ");
    DropSpecials(x + "()" + " " + "{}" + " " + ":;" + " ", "|");
  }

  /** A space is not special. */
  lemma PlainSpace() ensures Plain(" ") { OrdinaryIsPlain(" "); }

  /** Two all-special words, each after a space: only the spaces stay. */
  lemma SpecialPair(x: string, a: string, b: string)
    requires AllSpecial(a) && AllSpecial(b)
    ensures StripSpecial(x + " " + a + " " + b) == StripSpecial(x) + " " + " "
  {
    PlainSpace();
    KeepPlain(x, " ");
    DropSpecials(x + " ", a);
    KeepPlain(x + " " + a, " ");
    DropSpecials(x + " " + a + " ", b);
  }

  /** The last four punctuation words, each after a space, leave their four spaces. */
  lemma SpecialTailB(x: string)
    ensures StripSpecial(x + " " + "*?" + " " + "<>" + " " + "\"" + " " + "'")
         == StripSpecial(x) + " " + " " + " " + " "
  {
    SpecialPair(x, "*?", "<>");
    SpecialPair(x + " " + "*?" + " " + "<>", "\"", "'");
  }

  /** The control and text parts of the test input pass stripSpecial unchanged. */
  lemma SpecialTestHead()
    ensures StripSpecial(Controls + " test 123.45 _ ") == Controls + " test 123.45 _ "
  {
    ControlsFacts();
    TextIsPlain();
    KeepPlain(Controls, " test 123.45 _ ");
  }

  /** Of the punctuation only the seven spaces stay. */
  lemma PunctuationStripped(p: string)
    requires p == "() {} :; | *? <> \" '"
    ensures StripSpecial(p) == "       "
  {
    PunctuationWords(p);
    SpecialTailA("");
    SpecialTailB("" + "()" + " " + "{}" + " " + ":;" + " " + "|");
    SevenSpaces();
  }

  /** The spaces left over from the punctuation part spell its expected output. */
  lemma SevenSpaces()
    ensures StripSpecial("") + " " + " " + " " + " " + " " + " " + " " == "       "
  {
    assert StripSpecial("") == "";
  }

  /** fn_test.go: the punctuation goes, while the control characters and the
      spaces stay. */
  lemma StripSpecialExample(s: string, w: string)
    requires s == "\U{7}\U{8}\U{C}\n\r\U{B}\t test 123.45 _ () {} :; | *? <> \" '"
    requires w == "\U{7}\U{8}\U{C}\n\r\U{B}\t test 123.45 _        "
    ensures StripSpecial(s) == w
  {
    TestInputPieces(s);
    SpecialTestOutput(w);
    SpecialTestHead();
    PunctuationStripped("() {} :; | *? <> \" '");
    StripSpecialCharacterwise(Controls + " test 123.45 _ ", "() {} :; | *? <> \" '", ' ');
  }

  /** A space followed by a space-free word: the space alone is replaced. */
  lemma SpaceThenWord(x: string, word: string)
    requires ' ' !in word
    ensures ReplaceSpaces(x + " " + word, '_') == ReplaceSpaces(x, '_') + "_" + word
  {
    ReplaceSpacesAppend(x + " ", word, '_');
    ReplaceSpacesAppend(x, " ", '_');
    assert ReplaceSpaces(" ", '_') == "_";
  }

  /** The three spaces of the text part before its last word become underscores. */
  lemma ReplaceTailA(x: string)
    ensures ReplaceSpaces(x + " " + "test" + " " + "123.45" + " " + "_", '_')
         == ReplaceSpaces(x, '_') + "_" + "test" + "_" + "123.45" + "_" + "_"
  {
    SpaceThenWord(x, "test");
    SpaceThenWord(x + " " + "test", "123.45");
    SpaceThenWord(x + " " + "test" + " " + "123.45", "_");
  }

  /** The three spaces among the first four punctuation words become underscores. */
  lemma ReplaceTailB(x: string)
    ensures ReplaceSpaces(x + "()" + " " + "{}" + " " + ":;" + " " + "|", '_')
         == ReplaceSpaces(x, '_') + "()" + "_" + "{}" + "_" + ":;" + "_" + "|"
  {
    ReplaceSpacesAppend(x, "()", '_');
    assert ReplaceSpaces("()", '_') == "()";
    SpaceThenWord(x + "()", "{}");
    SpaceThenWord(x + "()" + " " + "{}", ":;");
    SpaceThenWord(x + "()" + " " + "{}" + " " + ":;", "|");
  }

  /** The four spaces among the last four punctuation words become underscores. */
  lemma ReplaceTailC(x: string)
    ensures ReplaceSpaces(x + " " + "*?" + " " + "<>" + " " + "\"" + " " + "'", '_')
         == ReplaceSpaces(x, '_') + "_" + "*?" + "_" + "<>" + "_" + "\"" + "_" + "'"
  {
    SpaceThenWord(x, "*?");
    SpaceThenWord(x + " " + "*?", "<>");
    SpaceThenWord(x + " " + "*?" + " " + "<>", "\"");
    SpaceThenWord(x + " " + "*?" + " " + "<>" + " " + "\"", "'");
  }

  /** Splits the text part " test 123.45 _ " at its spaces, and joins the replaced words
      back. */
  lemma TextWords(t: string)
    requires t == " test 123.45 _ "
    ensures t == "" + " " + "test" + " " + "123.45" + " " + "_" + " " + ""
    ensures "" + "_" + "test" + "_" + "123.45" + "_" + "_" + "_" + "" == "_test_123.45___"
  {
  }

  /** The spaces of the text part become underscores. */
  lemma TextReplaced(t: string)
    requires t == " test 123.45 _ "
    ensures ReplaceSpaces(t, '_') == "_test_123.45___"
  {
    TextWords(t);
    ReplaceTailA("");
    SpaceThenWord("" + " " + "test" + " " + "123.45" + " " + "_", "");
    assert ReplaceSpaces("", '_') == "";
  }

  /** The replaced punctuation words spell the expected punctuation part of the output. */
  lemma PunctuationOut()
    ensures "" + "()" + "_" + "{}" + "_" + ":;" + "_" + "|" + "_" + "*?" + "_" + "<>" + "_" + "\"" + "_" + "'"
         == "()_{}_:;_|_*?_<>_\"_'"
  {
  }

  /** The spaces of the punctuation part become underscores. */
  lemma PunctuationReplaced(p: string)
    requires p == "() {} :; | *? <> \" '"
    ensures ReplaceSpaces(p, '_') == "()_{}_:;_|_*?_<>_\"_'"
  {
    PunctuationWords(p);
    ReplaceTailB("");
    ReplaceTailC("" + "()" + " " + "{}" + " " + ":;" + " " + "|");
    assert ReplaceSpaces("", '_') == "";
    PunctuationOut();
  }

  /** Splits the expected output of replaceSpaces into its control, text and punctuation
      parts. */
  lemma ReplaceOutput(w: string)
    requires w == "\U{7}\U{8}\U{C}\n\r\U{B}\t_test_123.45___()_{}_:;_|_*?_<>_\"_'"
    ensures w == Controls + "_test_123.45___" + "()_{}_:;_|_*?_<>_\"_'"
  {
  }

  /** fn_test.go: every space becomes an underscore and nothing else moves. */
  lemma ReplaceSpacesExample(s: string, w: string)
    requires s == "\U{7}\U{8}\U{C}\n\r\U{B}\t test 123.45 _ () {} :; | *? <> \" '"
    requires w == "\U{7}\U{8}\U{C}\n\r\U{B}\t_test_123.45___()_{}_:;_|_*?_<>_\"_'"
    ensures ReplaceSpaces(s, '_') == w
  {
    TestInputPieces(s);
    ReplaceOutput(w);
    ControlsFacts();
    TextReplaced(" test 123.45 _ ");
    PunctuationReplaced("() {} :; | *? <> \" '");
    ReplaceSpacesAppend(Controls + " test 123.45 _ ", "() {} :; | *? <> \" '", '_');
    ReplaceSpacesAppend(Controls, " test 123.45 _ ", '_');
  }
}
