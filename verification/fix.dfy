/**
 The two public entry points, FixForShell and FixForURL: the stages run in
 order, the result is capped in length, and a name with nothing left becomes
 a fixed placeholder.
 */
module Fix {
  import opened Runes
  import opened Strip
  import opened Segments
  import opened Collapse
  import opened Trimming
  import opened Edges
  import opened Truncation

  const MaxLenShell := 255
  const MaxLenURL := 128
  const ShellPlaceholder := "FN_NO_NAME"
  const URLPlaceholder := "FN-NO-NAME"

  /** The characters of the cutset "-_ " both entry points trim: dash,
      underscore and space. */
  const Separators: set<char> := {'-', '_', ' '}

  /** `Separators` is the set of code points of the cutset string: the one
      each character regular expression and the edge class are built from. */
  lemma SeparatorsAreCutset()
    ensures Separators == Elems("-_ ")
    ensures |"-_ "| == |Separators| == 3
  {
  }

  /** Neither a control character, nor a special character, nor a space. */
  predicate SafeChar(c: char) {
    !IsControl(c) && !IsSpecial(c) && c != ' '
  }

  /** Every code point of `s` is safe. */
  predicate ShellSafe(s: string) {
    forall c :: c in s ==> SafeChar(c)
  }

  /** What survives of clean segments when a name is cut short: every segment
      keeps its runs collapsed and its front clean, and every segment but the
      last, which may have been cut, still ends cleanly. */
  predicate CutSegments(s: string, S: set<char>) {
    forall k :: 0 <= k < |SplitDots(s)| ==>
      && NoRuns(SplitDots(s)[k], S)
      && NoLeadingSeparator(SplitDots(s)[k], S)
      && (k < |SplitDots(s)| - 1 ==> NoTrailingSeparator(SplitDots(s)[k], S))
  }

  /** Any prefix of a name with clean segments has cut segments. */
  lemma PrefixOfCleanIsCut(s: string, n: nat, S: set<char>)
    requires n <= |s| && CleanSegments(s, S)
    ensures CutSegments(s[..n], S)
  {
    SplitDotsPrefix(s, n);
    var p, q := SplitDots(s[..n]), SplitDots(s);
    var last := |p| - 1;
    assert CleanSegment(q[last], S);
    assert p[last] == q[last][..|p[last]|];
    NoRunsSlice(q[last], S, 0, |p[last]|);
    forall k | 0 <= k < |p|
      ensures NoRuns(p[k], S) && NoLeadingSeparator(p[k], S)
      ensures k < |p| - 1 ==> NoTrailingSeparator(p[k], S)
    {
      if k < last {
        assert p[k] == q[k] && CleanSegment(q[k], S);
      }
    }
  }

  /** An upper-case ASCII letter, as in the two placeholders. */
  predicate Capital(c: char) {
    'A' <= c <= 'Z'
  }

  /** A name of capital letters, with single underscores or dashes only between
      capitals, is a single clean segment of safe characters. */
  lemma CapitalsClean(p: string)
    requires |p| > 0 && Capital(p[0]) && Capital(p[|p| - 1])
    requires forall i :: 0 <= i < |p| ==> Capital(p[i]) || p[i] == '_' || p[i] == '-'
    requires forall i :: 0 < i < |p| ==> Capital(p[i]) || Capital(p[i - 1])
    ensures ShellSafe(p) && CleanSegments(p, Separators)
  {
    assert forall c :: Capital(c) || c == '_' || c == '-' ==> SafeChar(c) && c != '.';
    SplitDotFree(p);
    assert SplitDots(p) == [p];
    assert CleanSegment(p, Separators);
  }

  /** Both placeholders are single clean segments of safe characters. */
  lemma PlaceholderClean(p: string)
    requires p == ShellPlaceholder || p == URLPlaceholder
    ensures ShellSafe(p) && CleanSegments(p, Separators)
  {
    CapitalsClean(p);
  }

  /** Once control and special characters are gone, replacing spaces by '_'
      leaves only safe characters. */
  lemma UnderscoreKeepsSafe(s: string)
    requires forall c :: c in s ==> !IsControl(c) && !IsSpecial(c)
    ensures ShellSafe(ReplaceSpaces(s, '_'))
  {
    assert !IsControl('_') && !IsSpecial('_');
  }

  /** A safe name passes the three character stages unchanged, whatever
      replaces the spaces. */
  lemma SafeNamePassesStages(s: string, replacement: char)
    requires ShellSafe(s)
    ensures ReplaceSpaces(StripSpecial(StripControl(s)), replacement) == s
  {
    assert StripControl(s) == s;
    assert StripSpecial(s) == s;
  }

  /** The character stages keep every dot, so the name keeps its extension
      separators. */
  lemma StagesKeepDots(source: string, replacement: char)
    requires replacement != '.'
    ensures multiset(ReplaceSpaces(StripSpecial(StripControl(source)), replacement))['.']
         == multiset(source)['.']
  {
    assert !IsControl('.') && !IsSpecial('.');
    StripOccurrences(source, '.');
    StripOccurrences(StripControl(source), '.');
    ReplaceSpacesOccurrences(StripSpecial(StripControl(source)), replacement, '.');
  }

  /** The character stages keep every occurrence of a safe code point other
      than the replacement. */
  lemma StagesKeepOthers(source: string, replacement: char, x: char)
    requires SafeChar(x) && x != replacement
    ensures multiset(ReplaceSpaces(StripSpecial(StripControl(source)), replacement))[x]
         == multiset(source)[x]
  {
    StripOccurrences(source, x);
    StripOccurrences(StripControl(source), x);
    ReplaceSpacesOccurrences(StripSpecial(StripControl(source)), replacement, x);
  }

  /** The stages of FixForShell before the length cap. */
  function ShellPipeline(source: string): (t: string)
    ensures ShellSafe(t)
    ensures CleanSegments(t, Separators)
    ensures forall c :: c in t ==> c in source || c == '_'
    ensures multiset(t)['.'] == multiset(source)['.']
    ensures forall x :: SafeChar(x) && x !in Separators ==> multiset(t)[x] == multiset(source)[x]
  {
    var stripped := StripSpecial(StripControl(source));
    UnderscoreKeepsSafe(stripped);
    StagesKeepDots(source, '_');
    forall x | SafeChar(x) && x !in Separators
      ensures multiset(Trim(ReplaceSpaces(stripped, '_'), Separators))[x] == multiset(source)[x]
    {
      StagesKeepOthers(source, '_', x);
      TrimKeepsOthers(ReplaceSpaces(stripped, '_'), Separators, x);
    }
    Trim(ReplaceSpaces(stripped, '_'), Separators)
  }

  /** A name that is already safe and clean passes the stages unchanged. */
  lemma ShellPipelineKeepsCleanName(t: string)
    requires ShellSafe(t) && CleanSegments(t, Separators)
    ensures ShellPipeline(t) == t
  {
    TrimKeepsCleanName(t, Separators);
  }

  /** Sanitises a name for use in a shell. */
  function FixForShell(source: string): (r: string)
    ensures 0 < |r| <= MaxLenShell + 1
    ensures ShellSafe(r)
    ensures CutSegments(r, Separators)
    ensures |ShellPipeline(source)| <= MaxLenShell ==> CleanSegments(r, Separators)
    ensures ShellPipeline(source) == [] ==> r == ShellPlaceholder
    ensures ShellPipeline(source) != [] ==> r <= ShellPipeline(source)
    ensures 0 < |ShellPipeline(source)| <= MaxLenShell ==> r == ShellPipeline(source)
    ensures |ShellPipeline(source)| > MaxLenShell ==> |r| == MaxLenShell + 1
  {
    var t := ShellPipeline(source);
    var cut := Truncate(t, MaxLenShell);
    PlaceholderClean(ShellPlaceholder);
    assert |cut| > 0 <==> |t| > 0;
    assert t != [] ==> cut != [] && cut <= t;
    PrefixOfCleanIsCut(t, |cut|, Separators);
    PrefixOfCleanIsCut(ShellPlaceholder, |ShellPlaceholder|, Separators);
    assert ShellPlaceholder[..|ShellPlaceholder|] == ShellPlaceholder;
    if cut == [] then ShellPlaceholder else cut
  }

  /** FixForShell with the cap the constant's name promises. */
  function FixForShellIntended(source: string): (r: string)
    ensures 0 < |r| <= MaxLenShell
    ensures ShellSafe(r)
    ensures ShellPipeline(source) == [] ==> r == ShellPlaceholder
    ensures ShellPipeline(source) != [] ==> r <= ShellPipeline(source)
    ensures 0 < |ShellPipeline(source)| <= MaxLenShell ==> r == ShellPipeline(source)
    ensures |ShellPipeline(source)| > MaxLenShell ==> |r| == MaxLenShell
  {
    var cut := TruncateIntended(ShellPipeline(source), MaxLenShell);
    PlaceholderClean(ShellPlaceholder);
    assert |cut| > 0 <==> |ShellPipeline(source)| > 0;
    if cut == [] then ShellPlaceholder else cut
  }

  /** The placeholder is also what FixForShell makes of the placeholder itself,
      although the stages leave that name non-empty: the placeholder does not
      by itself show that the stages left nothing. */
  lemma PlaceholderFixesToItself()
    ensures ShellPipeline(ShellPlaceholder) == ShellPlaceholder != []
    ensures FixForShell(ShellPlaceholder) == ShellPlaceholder
  {
    PlaceholderClean(ShellPlaceholder);
    ShellPipelineKeepsCleanName(ShellPlaceholder);
  }

  /** When nothing had to be cut, fixing a fixed name changes nothing. */
  lemma FixForShellIdempotent(source: string)
    ensures |ShellPipeline(source)| <= MaxLenShell ==> FixForShell(FixForShell(source)) == FixForShell(source)
  {
    if |ShellPipeline(source)| <= MaxLenShell {
      var r := FixForShell(source);
      PlaceholderClean(ShellPlaceholder);
      ShellPipelineKeepsCleanName(r);
    }
  }

  /** A name longer than the cap: the first 255 code points and "_b". */
  function LongName(): (s: string)
    ensures |s| == MaxLenShell + 2
  {
    seq(MaxLenShell, _ => 'a') + "_b"
  }

  /** A safe name without dots that is one clean segment passes the stages unchanged. */
  lemma DotFreeCleanNameKept(s: string)
    requires ShellSafe(s) && '.' !in s && CleanSegment(s, Separators)
    ensures ShellPipeline(s) == s
  {
    SplitDotFree(s);
    ShellPipelineKeepsCleanName(s);
  }

  /** LongName is a safe name without dots and a single clean segment. */
  lemma LongNameClean()
    ensures ShellSafe(LongName()) && '.' !in LongName()
    ensures CleanSegment(LongName(), Separators)
  {
    var s := LongName();
    assert forall i :: 0 <= i < |s| ==> s[i] == 'a' || s[i] == '_' || s[i] == 'b';
    forall i | 0 < i < |s| ensures !(s[i] in Separators && s[i - 1] == s[i]) {
      if i < MaxLenShell {
        assert s[i] == 'a';
      } else {
        assert s[i - 1] != s[i];
      }
    }
  }

  /** The first pass over LongName cuts it to the cap plus one, ending in '_'. */
  lemma LongNameFirstPass()
    ensures FixForShell(LongName()) == seq(MaxLenShell, _ => 'a') + "_"
  {
    var s := LongName();
    LongNameClean();
    DotFreeCleanNameKept(s);
    DropLast(seq(MaxLenShell, _ => 'a'));
  }

  /** Cutting the long name one code point past the cap keeps its '_' and drops its 'b'. */
  lemma DropLast(x: string)
    ensures (x + "_b")[..|x| + 1] == x + "_"
  {
  }

  /** The stages remove the trailing '_' the cut left behind. */
  lemma LongNameSecondPass()
    ensures ShellPipeline(seq(MaxLenShell, _ => 'a') + "_") == seq(MaxLenShell, _ => 'a')
  {
    var S := Separators;
    var a := seq(MaxLenShell, _ => 'a');
    var r := a + "_";
    assert ShellSafe(r) && '.' !in r by {
      assert forall i :: 0 <= i < |r| ==> r[i] == 'a' || r[i] == '_';
    }
    assert CleanSegment(a, S) by {
      assert forall i :: 0 <= i < |a| ==> a[i] == 'a';
    }
    TrimSegmentDropsTrailing(a, '_', S);
    TrimDotFree(r, S);
    SafeNamePassesStages(r, '_');
  }

  /** The cut can exceed the cap and can leave a trailing separator, which a
      second pass then removes: FixForShell is not idempotent on long names. */
  lemma FixForShellCutExample()
    ensures |FixForShell(LongName())| == MaxLenShell + 1
    ensures FixForShell(FixForShell(LongName())) == seq(MaxLenShell, _ => 'a')
    ensures FixForShell(FixForShell(LongName())) != FixForShell(LongName())
  {
    LongNameFirstPass();
    LongNameSecondPass();
    var a := seq(MaxLenShell, _ => 'a');
    assert |a + "_"| == MaxLenShell + 1;
  }

  /** The stages of FixForURL before the length cap; `unidecode` stands for the
      transliteration to ASCII applied after spaces are replaced. */
  function URLPipeline(source: string, unidecode: string -> string): (t: string)
    ensures CleanSegments(t, Separators)
    ensures forall c :: c in t ==> c in unidecode(ReplaceSpaces(StripSpecial(StripControl(source)), '-'))
    ensures forall x :: x !in Separators ==>
              multiset(t)[x] == multiset(unidecode(ReplaceSpaces(StripSpecial(StripControl(source)), '-')))[x]
  {
    var u := unidecode(ReplaceSpaces(StripSpecial(StripControl(source)), '-'));
    forall x | x !in Separators
      ensures multiset(Trim(u, Separators))[x] == multiset(u)[x]
    {
      TrimKeepsOthers(u, Separators, x);
    }
    Trim(unidecode(ReplaceSpaces(StripSpecial(StripControl(source)), '-')), Separators)
  }

  /** Sanitises a name for use in a URL. */
  function FixForURL(source: string, unidecode: string -> string): (r: string)
    ensures 0 < |r| <= MaxLenURL + 1
    ensures CutSegments(r, Separators)
    ensures |URLPipeline(source, unidecode)| <= MaxLenURL ==> CleanSegments(r, Separators)
    ensures URLPipeline(source, unidecode) == [] ==> r == URLPlaceholder
    ensures URLPipeline(source, unidecode) != [] ==> r <= URLPipeline(source, unidecode)
    ensures 0 < |URLPipeline(source, unidecode)| <= MaxLenURL ==> r == URLPipeline(source, unidecode)
    ensures |URLPipeline(source, unidecode)| > MaxLenURL ==> |r| == MaxLenURL + 1
  {
    var t := URLPipeline(source, unidecode);
    var cut := Truncate(t, MaxLenURL);
    PlaceholderClean(URLPlaceholder);
    assert |cut| > 0 <==> |t| > 0;
    assert t != [] ==> cut != [] && cut <= t;
    PrefixOfCleanIsCut(t, |cut|, Separators);
    PrefixOfCleanIsCut(URLPlaceholder, |URLPlaceholder|, Separators);
    assert URLPlaceholder[..|URLPlaceholder|] == URLPlaceholder;
    if cut == [] then URLPlaceholder else cut
  }

  /** FixForURL with the cap the constant's name promises. */
  function FixForURLIntended(source: string, unidecode: string -> string): (r: string)
    ensures 0 < |r| <= MaxLenURL
    ensures URLPipeline(source, unidecode) == [] ==> r == URLPlaceholder
    ensures URLPipeline(source, unidecode) != [] ==> r <= URLPipeline(source, unidecode)
    ensures 0 < |URLPipeline(source, unidecode)| <= MaxLenURL ==> r == URLPipeline(source, unidecode)
    ensures |URLPipeline(source, unidecode)| > MaxLenURL ==> |r| == MaxLenURL
  {
    var cut := TruncateIntended(URLPipeline(source, unidecode), MaxLenURL);
    assert |cut| > 0 <==> |URLPipeline(source, unidecode)| > 0;
    if cut == [] then URLPlaceholder else cut
  }

  /** When nothing had to be cut and the transliteration leaves the result
      alone, fixing a fixed URL name changes nothing. */
  lemma FixForURLIdempotent(source: string, unidecode: string -> string)
    requires |URLPipeline(source, unidecode)| <= MaxLenURL
    requires ShellSafe(FixForURL(source, unidecode))
    requires unidecode(FixForURL(source, unidecode)) == FixForURL(source, unidecode)
    ensures FixForURL(FixForURL(source, unidecode), unidecode) == FixForURL(source, unidecode)
  {
    var r := FixForURL(source, unidecode);
    SafeNamePassesStages(r, '-');
    TrimKeepsCleanName(r, Separators);
  }

  /** A run of one separator character, of any length, trims away to nothing. */
  lemma SeparatorRunTrimsAway(c: char, n: nat)
    requires c in Separators
    ensures Trim(seq(n, _ => c), Separators) == []
  {
    var s := seq(n, _ => c);
    assert '.' !in s;
    TrimDotFree(s, Separators);
    if n > 0 {
      CollapseRun(c, n, Separators);
      assert StripPass([c], Separators) == [];
    }
  }

  /** The three character stages turn a name of spaces into a run of the
      replacement. */
  lemma SpacesBecomeReplacement(n: nat, replacement: char)
    ensures ReplaceSpaces(StripSpecial(StripControl(seq(n, _ => ' '))), replacement)
         == seq(n, _ => replacement)
  {
    var s := seq(n, _ => ' ');
    assert !IsControl(' ') && !IsSpecial(' ');
    assert StripControl(s) == s;
    assert StripSpecial(s) == s;
  }

  /** A name of nothing but spaces becomes the shell placeholder. */
  lemma SpacesOnlyShell(n: nat)
    ensures FixForShell(seq(n, _ => ' ')) == ShellPlaceholder
  {
    SpacesBecomeReplacement(n, '_');
    SeparatorRunTrimsAway('_', n);
  }

  /** A name of nothing but spaces becomes the URL placeholder, given that the
      transliteration leaves a run of dashes alone. */
  lemma SpacesOnlyURL(n: nat, unidecode: string -> string)
    requires unidecode(seq(n, _ => '-')) == seq(n, _ => '-')
    ensures FixForURL(seq(n, _ => ' '), unidecode) == URLPlaceholder
  {
    SpacesBecomeReplacement(n, '-');
    SeparatorRunTrimsAway('-', n);
  }
}
