/**
 The package's test of FixForShell on a name full of special characters,
 followed stage by stage through the pipeline.
 */
module ShellExamples {
  import opened Runes
  import opened Strip
  import opened Collapse
  import opened Edges
  import opened Trimming
  import opened Fix
  import opened StageExamples

  /** Stage one: the name has no control characters. */
  lemma NoControlA()
    ensures StripControl("--thí$ is (a re") == "--thí$ is (a re"
  {
    assert forall x :: x in "--thí$ is (a re" ==> !IsControl(x);
  }

  /** The middle third of the test name has no control characters either. */
  lemma NoControlB()
    ensures StripControl("ally<bad>){file") == "ally<bad>){file"
  {
    assert forall x :: x in "ally<bad>){file" ==> !IsControl(x);
  }

  /** Nor has its last third. */
  lemma NoControlC()
    ensures StripControl("*/name}- .png ") == "*/name}- .png "
  {
    assert forall x :: x in "*/name}- .png " ==> !IsControl(x);
  }

  /** Splits the test name into the three thirds checked above. */
  lemma BadNameThirds(s: string)
    requires s == "--thí$ is (a really<bad>){file*/name}- .png "
    ensures s == "--thí$ is (a re" + "ally<bad>){file" + "*/name}- .png "
  {
  }

  /** So the first stage leaves the whole test name unchanged. */
  lemma BadNameNoControl(s: string)
    requires s == "--thí$ is (a really<bad>){file*/name}- .png "
    ensures StripControl(s) == s
  {
    BadNameThirds(s);
    NoControlA();
    NoControlB();
    NoControlC();
    StripControlCharacterwise("--thí$ is (a re" + "ally<bad>){file", "*/name}- .png ", ' ');
    StripControlCharacterwise("--thí$ is (a re", "ally<bad>){file", ' ');
  }

  /** Stage two: the special characters go. */
  lemma BadNameHalves(s: string)
    requires s == "--thí$ is (a really<bad>){file*/name}- .png "
    ensures s == "--thí$ is (a really<" + "bad>){file*/name}- .png "
  {
  }

  /** Splits the part up to the '<' into words and special characters. */
  lemma FrontPieces(p: string)
    requires p == "--thí$ is (a really<"
    ensures p == "--thí" + "$" + " is " + "(" + "a really" + "<"
  {
  }

  /** Splits the part after the '<' into words and special characters. */
  lemma BackPieces(q: string)
    requires q == "bad>){file*/name}- .png "
    ensures q == "bad" + ">)" + "{" + "file" + "*/" + "name" + "}" + "- .png "
  {
  }

  /** The leading "--thí" holds no special character. */
  lemma HeadKept()
    ensures StripSpecial("--thí") == "--thí"
  {
    assert forall x :: x in "--thí" ==> !IsSpecial(x);
  }

  /** The three special characters of the part up to the '<'. */
  lemma FrontSpecials()
    ensures AllSpecial("$") && AllSpecial("(") && AllSpecial("<")
  {
  }

  /** The words of the name are ordinary text. */
  lemma FrontWords()
    ensures Plain(" is ") && Plain("a really")
  {
    OrdinaryIsPlain(" is ");
    OrdinaryIsPlain("a really");
  }

  /** The words of the part after the '<' are ordinary text. */
  lemma BackWords()
    ensures Plain("bad") && Plain("file") && Plain("name") && Plain("- .png ")
  {
    OrdinaryIsPlain("bad");
    OrdinaryIsPlain("file");
    OrdinaryIsPlain("name");
    OrdinaryIsPlain("- .png ");
  }

  /** The middle of the part up to the '<': "$ is (" loses its '$' and '('. */
  lemma StripTailA1(x: string)
    requires AllSpecial("$") && AllSpecial("(") && Plain(" is ")
    ensures StripSpecial(x + "$" + " is " + "(") == StripSpecial(x) + " is "
  {
    DropSpecials(x, "$");
    KeepPlain(x + "$", " is ");
    DropSpecials(x + "$" + " is ", "(");
  }

  /** The part up to the '<': only '$' and '(' go. */
  lemma SpecialFront(p: string)
    requires p == "--thí$ is (a really<"
    ensures StripSpecial(p) == "--thí" + " is " + "a really"
  {
    FrontPieces(p);
    HeadKept();
    FrontSpecials();
    FrontWords();
    StripTailA1("--thí");
    KeepPlain("--thí" + "$" + " is " + "(", "a really");
    DropSpecials("--thí" + "$" + " is " + "(" + "a really", "<");
  }

  /** The middle of the part after the '<': of its specials and "file", only
      "file" stays. */
  lemma StripTailB1(x: string)
    requires Plain("file")
    ensures StripSpecial(x + ">)" + "{" + "file" + "*/") == StripSpecial(x) + "file"
  {
    DropSpecials(x, ">)");
    DropSpecials(x + ">)", "{");
    KeepPlain(x + ">)" + "{", "file");
    DropSpecials(x + ">)" + "{" + "file", "*/");
  }

  /** The end of the part after the '<': "name}- .png " loses its '}'. */
  lemma StripTailB2(x: string)
    requires Plain("name") && Plain("- .png ")
    ensures StripSpecial(x + "name" + "}" + "- .png ") == StripSpecial(x) + "name" + "- .png "
  {
    KeepPlain(x, "name");
    DropSpecials(x + "name", "}");
    KeepPlain(x + "name" + "}", "- .png ");
  }

  /** The part after the '<': the brackets, '*' and '/' go. */
  lemma SpecialBack(q: string)
    requires q == "bad>){file*/name}- .png "
    ensures StripSpecial(q) == "bad" + "file" + "name" + "- .png "
  {
    BackPieces(q);
    BackWords();
    assert StripSpecial("bad") == "bad";
    StripTailB1("bad");
    StripTailB2("bad" + ">)" + "{" + "file" + "*/");
  }

  /** The second stage on the test name: every special character goes. */
  lemma BadNameStripSpecial(s: string)
    requires s == "--thí$ is (a really<bad>){file*/name}- .png "
    ensures StripSpecial(s) == ("--thí" + " is " + "a really") + ("bad" + "file" + "name" + "- .png ")
  {
    BadNameHalves(s);
    SpecialFront("--thí$ is (a really<");
    SpecialBack("bad>){file*/name}- .png ");
    StripSpecialCharacterwise("--thí$ is (a really<", "bad>){file*/name}- .png ", ' ');
  }

  /** Stage three: the five remaining spaces become underscores. */
  lemma BadNameWords(b: string)
    requires b == ("--thí" + " is " + "a really") + ("bad" + "file" + "name" + "- .png ")
    ensures b == "--thí" + " " + "is" + " " + "a" + " " + "reallybadfilename-" + " " + ".png" + " " + ""
  {
  }

  /** The words between the spaces of the stripped test name hold no space. */
  lemma NoSpaceWords()
    ensures ' ' !in "--thí" && ' ' !in "is" && ' ' !in "a" && ' ' !in ".png" && ' ' !in ""
    ensures ' ' !in "reallybadfilename-"
  {
  }

  /** The first three spaces after "--thí" become underscores. */
  lemma BadNameTailA(x: string)
    requires ' ' !in "is" && ' ' !in "a" && ' ' !in "reallybadfilename-"
    ensures ReplaceSpaces(x + " " + "is" + " " + "a" + " " + "reallybadfilename-", '_')
         == ReplaceSpaces(x, '_') + "_" + "is" + "_" + "a" + "_" + "reallybadfilename-"
  {
    SpaceThenWord(x, "is");
    SpaceThenWord(x + " " + "is", "a");
    SpaceThenWord(x + " " + "is" + " " + "a", "reallybadfilename-");
  }

  /** The two spaces around ".png" become underscores. */
  lemma BadNameTailB(x: string)
    requires ' ' !in ".png"
    ensures ReplaceSpaces(x + " " + ".png" + " " + "", '_') == ReplaceSpaces(x, '_') + "_" + ".png" + "_" + ""
  {
    SpaceThenWord(x, ".png");
    SpaceThenWord(x + " " + ".png", "");
  }

  /** The third stage on the test name: all five spaces become underscores. */
  lemma BadNameReplaceSpaces(b: string)
    requires b == ("--thí" + " is " + "a really") + ("bad" + "file" + "name" + "- .png ")
    ensures ReplaceSpaces(b, '_')
         == "--thí" + "_" + "is" + "_" + "a" + "_" + "reallybadfilename-" + "_" + ".png" + "_" + ""
  {
    BadNameWords(b);
    NoSpaceWords();
    BadNameTailA("--thí");
    BadNameTailB("--thí" + " " + "is" + " " + "a" + " " + "reallybadfilename-");
  }

  /** Stage four: each of the two segments is trimmed. */
  const Core := "thí_is_a_reallybadfilename"
  /** The test name after three stages: two segments around the dot. */
  lemma BadNameSegments(c: string)
    requires c == "--thí" + "_" + "is" + "_" + "a" + "_" + "reallybadfilename-" + "_" + ".png" + "_" + ""
    ensures c == ("--" + Core + "-_") + "." + ("png" + "_")
  {
  }

  /** The expected core "thí_is_a_reallybadfilename" is dot-free and clean. */
  lemma CoreFacts()
    ensures NoRuns(Core, Separators) && '.' !in Core
    ensures Core[0] !in Separators && Core[|Core| - 1] !in Separators
  {
    assert forall i :: 0 < i < |Core| ==> Core[i] !in Separators || Core[i - 1] !in Separators;
  }

  /** A doubled separator collapses to one copy, while two different
      separators side by side are both kept. */
  lemma CollapseDoubled(d: char, u: char, S: set<char>)
    requires d in S && u in S && d != u
    ensures CollapseSet([d, d], S) == [d]
    ensures CollapseSet([d, u], S) == [d, u]
  {
    CollapseRun(d, 2, S);
    assert seq(2, _ => d) == [d, d];
    assert NoRuns([d, u], S);
    CollapseKeepsRunFree([d, u], S);
  }

  /** A core whose ends are not separators, with a doubled separator in front
      and two different separators behind: only the doubled one collapses. */
  lemma CollapseLeftShape(core: string, d: char, u: char, S: set<char>)
    requires d in S && u in S && d != u
    requires |core| > 0 && NoRuns(core, S) && core[0] !in S && core[|core| - 1] !in S
    ensures CollapseSet([d, d] + core + [d, u], S) == [d] + core + [d, u]
  {
    assert [d, d] + core + [d, u] == [d, d] + (core + [d, u]);
    CollapseKeepsRunFree(core, S);
    CollapseAppend(core, [d, u], S);
    CollapseAppend([d, d], core + [d, u], S);
    CollapseDoubled(d, u, S);
  }

  /** So trimming that segment leaves just the core. */
  lemma SegmentLeftShape(core: string, d: char, u: char, S: set<char>)
    requires d in S && u in S && d != u
    requires |core| > 0 && NoRuns(core, S) && core[0] !in S && core[|core| - 1] !in S
    ensures TrimSegment([d, d] + core + [d, u], S) == core
  {
    CollapseLeftShape(core, d, u, S);
    StripEdgesAround([d], core, [d, u], S);
  }

  /** And trimming the whole dot-free name does the same. */
  lemma TrimLeftShape(core: string, d: char, u: char, S: set<char>)
    requires d in S && u in S && d != u && d != '.' && u != '.' && '.' !in core
    requires |core| > 0 && NoRuns(core, S) && core[0] !in S && core[|core| - 1] !in S
    ensures Trim([d, d] + core + [d, u], S) == core
  {
    var s := [d, d] + core + [d, u];
    assert forall i :: 0 <= i < |s| ==> s[i] == d || s[i] == u || s[i] in core;
    TrimDotFree(s, S);
    SegmentLeftShape(core, d, u, S);
  }

  /** The segment before the dot has that shape, with '-' doubled and '_' behind. */
  lemma LeftPieces()
    ensures "--" + Core + "-_" == ['-', '-'] + Core + ['-', '_']
  {
  }

  /** The segment before the dot trims to the core. */
  lemma LeftSegment()
    ensures Trim("--" + Core + "-_", Separators) == Core
  {
    CoreFacts();
    LeftPieces();
    TrimLeftShape(Core, '-', '_', Separators);
  }

  /** The segment after the dot, "png_", loses its trailing '_'. */
  lemma RightSegment()
    ensures Trim("png" + "_", Separators) == "png"
  {
    assert CleanSegment("png", Separators);
    TrimSegmentDropsTrailing("png", '_', Separators);
    TrimDotFree("png" + "_", Separators);
  }

  /** The fourth stage on the test name: each segment trimmed, dot kept. */
  lemma BadNameTrim(c: string)
    requires c == "--thí" + "_" + "is" + "_" + "a" + "_" + "reallybadfilename-" + "_" + ".png" + "_" + ""
    ensures Trim(c, Separators) == Core + "." + "png"
  {
    BadNameSegments(c);
    TrimAtDot("--" + Core + "-_", "png" + "_", Separators);
    LeftSegment();
    RightSegment();
  }

  /** The trimmed pieces spell the expected result. */
  lemma ResultPieces()
    ensures Core + "." + "png" == "thí_is_a_reallybadfilename.png"
  {
  }

  /** fn_test.go: the name of the last shell test, with its punctuation, its
      leading dashes and its trailing "- .png ", fixes for the shell to
      "thí_is_a_reallybadfilename.png". */
  lemma FixForShellBadNameExample(s: string)
    requires s == "--thí$ is (a really<bad>){file*/name}- .png "
    ensures FixForShell(s) == "thí_is_a_reallybadfilename.png"
  {
    BadNameNoControl(s);
    BadNameStripSpecial(s);
    var b := ("--thí" + " is " + "a really") + ("bad" + "file" + "name" + "- .png ");
    BadNameReplaceSpaces(b);
    BadNameTrim(ReplaceSpaces(b, '_'));
    ResultPieces();
  }
}
