# fn: a verified model of the filename normaliser

The Go package `fn` rewrites a file name so that it is friendly to shells
(`FixForShell`) or to URLs (`FixForURL`). Both entry points run the same
pipeline:

1. drop control characters (`stripControl`);
2. drop the special characters of the constant `Special`, the comma included
   (`stripSpecial`);
3. replace each space by `_` for the shell, or by `-` for URLs
   (`replaceSpaces`);
4. for URLs only, transliterate to ASCII;
5. `trim` with the cutset `"-_ "`. The name is split at its dots. In every
   segment, each run of two or more copies of one separator shrinks to a single
   copy; this is done by one regular expression per separator, visited in Go map
   order. Leading and trailing separators are then removed by repeatedly
   applying `(^[S]|[S]$)`. Finally the segments are joined with dots;
6. `truncate` with the limit 255 (shell) or 128 (URL); as written it keeps
   one code point more than the limit, 256 or 129 (see Findings);
7. an empty result becomes the placeholder `FN_NO_NAME` or `FN-NO-NAME`.

Names are modelled as sequences of Unicode code points (`string` =
`seq<char>`), which is what the Go loops walk with `range`. The modules follow
the stages:

| module | file | models |
|---|---|---|
| `Runes` | runes.dfy | the control predicate, the special set, an order-preserving filter |
| `Strip` | strip.dfy | `stripControl`, `stripSpecial`, `replaceSpaces` |
| `Segments` | segments.dfy | `strings.Split(s, ".")` and `strings.Join(parts, ".")` |
| `Collapse` | collapse.dfy | the per-character run collapse and the map-order loop over it |
| `Edges` | edges.dfy | the edge-stripping regular-expression loop |
| `Trimming` | trim.dfy | `trim` |
| `Truncation` | truncate.dfy | `truncate`, as written and as intended |
| `Fix` | fix.dfy | `FixForShell`, `FixForURL`, and their idempotence |
| `Examples`, `StageExamples`, `ShellExamples`, `MixedExample` | examples.dfy, stage_examples.dfy, shell_examples.dfy, mixed_example.dfy | the cases of the package's test file |

Each regex loop of the source is modelled as written and proved equal to a
plain reference definition:

- The collapse loop over any map order (`FoldCollapse`) equals collapsing all
  separators at once (`CollapseSet`).
- The `(^[S]|[S]$)` loop (`StripEdges`) equals a two-sided trim
  (`TrimRight(TrimLeft(...))`).

The code, its comments and its tests disagree in three places. The model
follows the code:

- Maximum length. The comment at fn.go:17 calls `MaxLenShell` (255) and
  `MaxLenURL` (128) the maximum length of a file name. `truncate` keeps one
  code point more, 256 or 129; see Findings.
- URL separator. The URL tests expect `_` between words. `FixForURL` replaces
  spaces by `-` (fn.go:44), and the model uses `-`.
- Replacement rune. The `replaceSpaces` test (fn_test.go:39-40) passes the
  string `"_"` where the function takes a rune. The model's example
  (`StageExamples.ReplaceSpacesExample`) uses the rune `'_'`.

Nothing in the package promises that fixing a fixed name changes nothing. The
model proves it for names whose stages' output needs no cut
(`Fix.FixForShellIdempotent`) and shows that it fails for a name that was cut:
the cut can end on a separator, which the next pass trims away
(`Fix.FixForShellCutExample`).

## Model

| member | source | states |
|---|---|---|
| Runes.IsControl | fn.go:59 | Go's `unicode.IsControl`: the C0 controls, DEL and the C1 controls, U+0000 to U+001F and U+007F to U+009F, and nothing outside Latin-1 |
| Runes.IsSpecial | fn.go:71 | `strings.ContainsRune(Special, r)`: membership in the set `Special` |
| Runes.SpecialIsString | fn.go:15 | the set `Special` is exactly the set of code points of the thirty-code-point string constant |
| Runes.Filter | fn.go:57-64 | the kept code points are exactly the input's code points that pass the test, each passing, none added |
| Runes.FilterAllOrNone | fn.go:58-63 | a string whose code points all pass is kept whole; one whose code points all fail disappears |
| Runes.FilterAppend | fn.go:58-63 | each code point is judged on its own and the survivors keep their order: filtering distributes over concatenation |
| Runes.FilterSingle | fn.go:59-62 | a single code point is kept exactly when it passes |
| Runes.FilterCount | fn.go:58-63 | the code points kept and the code points dropped add up to the input's length |
| Runes.FilterOccurrences | fn.go:58-63 | every accepted code point keeps all its occurrences; every rejected one loses all of them |
| Strip.StripControl | fn.go:56-66 | the result has no control character, holds exactly the input's non-control code points, and is the input itself when there was none to drop |
| Strip.StripSpecial | fn.go:68-78 | the result has no character of `Special`, holds exactly the input's other code points, and is the input itself when there was none to drop |
| Strip.ReplaceSpaces | fn.go:80-91 | same length; each space becomes the replacement and every other code point stays in its place |
| Strip.ReplaceSpacesAppend | fn.go:82-88 | replacing spaces distributes over concatenation |
| Strip.StripControlCharacterwise | fn.go:58-63 | stripControl distributes over concatenation and keeps a single code point iff it is not a control character |
| Strip.StripSpecialCharacterwise | fn.go:70-75 | stripSpecial distributes over concatenation and keeps a single code point iff it is not in `Special` |
| Strip.StripIdempotent | fn.go:56-78 | stripping control or special characters a second time changes nothing |
| Strip.SpecialMembers | fn.go:15 | the comma, `¿`, backslash and `+` are special; tab, newline, space, dot, dash and underscore are not; tab, newline and U+0085 are control characters, space is not |
| Strip.StripSpecialStep | fn.go:70-75 | special-free text followed by special characters keeps the text and drops the specials |
| Strip.ReplaceSpacesOccurrences | fn.go:82-88 | every code point other than the space and the replacement keeps its number of occurrences |
| Strip.StripOccurrences | fn.go:56-78 | a code point that is not stripped keeps every one of its occurrences |
| Segments.SplitDots | fn.go:95 | splitting always yields at least one segment |
| Segments.SplitDotsDotFree | fn.go:95 | no segment contains a dot |
| Segments.SplitDotsCount | fn.go:95 | there is one more segment than there are dots |
| Segments.JoinDots | fn.go:112 | `strings.Join(parts, ".")`: a single part is returned as it is; JoinSplit and SplitJoin pin it as the inverse of SplitDots |
| Segments.JoinSplit | fn.go:112 | joining the segments of a split with dots gives back the original name |
| Segments.SplitJoin | fn.go:112 | splitting a join of dot-free segments gives back the segments |
| Segments.JoinDotCount | fn.go:112 | joining dot-free segments puts exactly one dot between neighbours |
| Segments.SplitDotsAppend | fn.go:95 | the segments of a concatenation: the last of the left part fuses with the first of the right part |
| Segments.SplitDotsAtDot | fn.go:95 | a dot between two names separates their segments |
| Segments.SplitDotsPrefix | fn.go:95 | the segments of a prefix are whole segments of the name, except the last, which is a prefix of one |
| Segments.SplitDotsChars | fn.go:95 | every code point of a segment comes from the split name |
| Segments.JoinDotsChars | fn.go:112 | every code point of a join is a dot or comes from a segment |
| Segments.JoinDotsAppend | fn.go:112 | joining two lists of segments puts one dot between their joins |
| Collapse.CollapseSet | fn.go:99 | collapsing never lengthens a segment and keeps its first and last code point |
| Collapse.CollapseNoRuns | fn.go:105-107 | after the collapse no separator occurs twice in a row |
| Collapse.CollapseKeepsRunFree | fn.go:105-107 | a segment without runs is left unchanged |
| Collapse.CollapseChars | fn.go:105-107 | collapsing removes only repeated copies: the set of code points is unchanged |
| Collapse.CollapseAppend | fn.go:105-107 | collapsing distributes over a concatenation whose seam is not inside a run |
| Collapse.CollapseRun | fn.go:99 | a run of any length of one separator becomes a single copy |
| Collapse.CollapseSeparatorRun | fn.go:99 | a separator run between two words shrinks to one copy and each word collapses on its own |
| Collapse.CollapseCompose | fn.go:105-107 | collapsing one set of separators and then one more character is collapsing them all together |
| Collapse.CollapseKeepsOthers | fn.go:105-107 | collapsing keeps every occurrence of every code point outside the collapsed set |
| Collapse.FoldCollapse | fn.go:105-107 | the per-character loop in one map order, as written: it never lengthens the segment and keeps its first and last code point |
| Collapse.FoldCollapseFrom | fn.go:105-107 | the per-character loop after a collapse with `A` equals one collapse with `A` plus the visited characters |
| Collapse.MapOrderIrrelevant | fn.go:105-107 | whatever order the map is iterated in, the loop equals collapsing all cutset characters at once |
| Collapse.AnyTwoOrdersAgree | fn.go:105-107 | two iteration orders over the same characters give the same segment |
| Collapse.NoNewRuns | fn.go:105-107 | collapsing runs of one character never creates a run of another |
| Collapse.NoRunsSubset | fn.go:105-107 | no runs of a set of separators means no runs of any subset |
| Edges.EdgeMatch | fn.go:108 | `MatchString` of the edge pattern: the segment is non-empty and starts or ends with a cutset character |
| Edges.StripPass | fn.go:109 | one replacement pass shortens the segment when the pattern matches and leaves it alone otherwise |
| Edges.StripEdges | fn.go:108-110 | the loop ends with a segment the pattern does not match, and a segment it never matched is returned unchanged |
| Edges.TrimLeft | fn.go:101 | the result is a suffix of the segment that does not start with a separator |
| Edges.TrimRight | fn.go:101 | the result is a prefix of the segment that does not end with a separator |
| Edges.StripPassKeepsTrim | fn.go:109 | one replacement pass does not change what the two-sided trim yields |
| Edges.StripEdgesIsTrim | fn.go:108-110 | the replace-while-matching loop is exactly the two-sided trim |
| Edges.StripEdgesChars | fn.go:108-110 | the loop only removes code points |
| Edges.TrimLeftKeepsOthers | fn.go:101 | trimming on the left keeps every occurrence of every code point outside the cutset |
| Edges.TrimRightKeepsOthers | fn.go:101 | trimming on the right keeps every occurrence of every code point outside the cutset |
| Edges.StripEdgesKeepsOthers | fn.go:108-110 | the strip loop keeps every occurrence of every code point outside the cutset |
| Edges.TrimAround | fn.go:101 | trimming removes exactly the separators around a core that starts and ends with another character |
| Edges.StripEdgesAround | fn.go:108-110 | the loop leaves just such a core |
| Trimming.TrimSegment | fn.go:104-111 | a processed segment has no runs and no leading or trailing separator, uses only code points of the input segment, keeps every occurrence of every code point outside the cutset, and a segment that was already clean is unchanged |
| Trimming.TrimSegmentAsWritten | fn.go:104-111 | the map-order collapse loop followed by the strip loop, for any order, is the segment's trim; that is collapse followed by the two-sided trim |
| Trimming.TrimParts | fn.go:104-111 | the loop over the parts: part k of the result is input part k processed — clean, holding every code point outside the cutset exactly as often as part k did, and equal to part k when that was already clean |
| Trimming.TrimSegmentIdempotent | fn.go:104-111 | processing a segment twice is processing it once |
| Trimming.Trim | fn.go:93-114 | the segments of the result are the processed segments of the input; the number of dots is kept; every segment is clean; no new code point appears |
| Trimming.TrimKeepsOthers | fn.go:93-114 | `trim` keeps every occurrence of every code point outside the cutset, dots included |
| Trimming.TrimKeepsCleanName | fn.go:93-114 | a name whose segments are all clean is returned unchanged |
| Trimming.TrimIdempotent | fn.go:93-114 | trimming twice is trimming once |
| Trimming.TrimDotFree | fn.go:95 | a name without dots is one segment and is trimmed as that segment |
| Trimming.TrimAtDot | fn.go:104-112 | trimming works segment by segment: the two sides of a dot are trimmed independently |
| Trimming.TrimPartsAppend | fn.go:104-111 | processing a list of segments works piece by piece |
| Trimming.TrimSegmentDropsTrailing | fn.go:108-110 | a clean segment followed by one separator trims back to the segment |
| Trimming.TrimSegmentWrapped | fn.go:104-111 | a segment wrapped in one separator on each side loses both separators and is collapsed inside |
| Truncation.TakeRunes | fn.go:121-127 | the first `n` code points, or the whole name when it is shorter |
| Truncation.Truncate | fn.go:116-131 | a name within the limit is unchanged; a longer one is cut to a prefix of `length + 1` code points |
| Truncation.TruncateOffByOne | fn.go:122 | whenever it cuts, the as-written truncation keeps exactly one code point more than the limit and the intended one |
| Truncation.TruncateIntended | fn.go:116-131 | a name within the limit is unchanged; a longer one is cut to a prefix of exactly `length` code points |
| Truncation.TruncateIdempotent | fn.go:116-131 | truncating twice is truncating once, for both variants |
| Fix.SeparatorsAreCutset | fn.go:30 | the set of separators is exactly the set of code points of the cutset string `"-_ "`, three of them |
| Fix.PrefixOfCleanIsCut | fn.go:31 | a prefix of a name with clean segments keeps collapsed, front-clean segments, and every segment but the last still ends cleanly |
| Fix.PlaceholderClean | fn.go:34 | both placeholders are single clean segments of safe characters |
| Fix.UnderscoreKeepsSafe | fn.go:28 | after both strips, replacing spaces by `_` leaves only safe code points |
| Fix.SafeNamePassesStages | fn.go:26-28 | a name of safe code points goes through the three character stages unchanged |
| Fix.StagesKeepOthers | fn.go:26-28 | the character stages keep every occurrence of a safe code point other than the replacement |
| Fix.StagesKeepDots | fn.go:26-28 | the character stages keep every dot |
| Fix.ShellPipeline | fn.go:26-30 | before the cut the name is safe, all its segments are clean, it keeps every dot, it has only code points of the input or `_`, and every safe code point of the input outside the cutset keeps all its occurrences |
| Fix.ShellPipelineKeepsCleanName | fn.go:26-30 | a safe name with clean segments passes the stages unchanged |
| Fix.FixForShell | fn.go:25-37 | the result is non-empty, at most 256 code points, and safe; it is the placeholder when the stages left nothing; otherwise it is a prefix of the stages' output and equal to it when no cut was needed |
| Fix.FixForShellIntended | fn.go:25-37 | the same pipeline with the corrected truncation: at most 255 code points, and exactly 255 when it cuts |
| Fix.PlaceholderFixesToItself | fn.go:33-35 | the placeholder name fixes to itself although the stages leave it non-empty, so the placeholder is returned when, but not only when, the stages leave nothing |
| Fix.FixForShellIdempotent | fn.go:25-37 | when nothing had to be cut, fixing a fixed name changes nothing |
| Fix.LongNameFirstPass | fn.go:31 | the first pass over 255 `a` followed by `_b` keeps 256 code points, the last being `_` |
| Fix.LongNameSecondPass | fn.go:30 | a second pass trims that `_` away |
| Fix.FixForShellCutExample | fn.go:122 | FixForShell can return 256 code points and is not idempotent on such a name |
| Fix.URLPipeline | fn.go:42-47 | before the cut all segments are clean, every code point comes from the transliterated name, and every code point outside the cutset, the dot included, keeps all its occurrences in it |
| Fix.FixForURL | fn.go:41-54 | non-empty and at most 129 code points; the placeholder when the stages left nothing; otherwise a prefix of the stages' output, equal to it when no cut was needed |
| Fix.FixForURLIntended | fn.go:41-54 | the same pipeline with the corrected truncation: at most 128 code points, and exactly 128 when it cuts |
| Fix.FixForURLIdempotent | fn.go:41-54 | when nothing was cut and the transliteration leaves the result alone, fixing a fixed URL name changes nothing |
| Fix.SeparatorRunTrimsAway | fn.go:30 | a run of one separator, of any length, trims to the empty name |
| Fix.SpacesOnlyShell | fn.go:33-35 | a name of spaces only becomes `FN_NO_NAME` |
| Fix.SpacesOnlyURL | fn.go:50-52 | a name of spaces only becomes `FN-NO-NAME` when the transliteration keeps dashes |
| Examples.TrimTestShape | fn_test.go:55-71 | for any separator that is not a dot or a lower-case letter, the trim-test shape collapses and strips to the expected words |
| Examples.TrimDashExample | fn_test.go:56-62 | trim of `-this-is--a----test-.png-` with cutset `-` is `this-is-a-test.png` |
| Examples.TrimUnderscoreExample | fn_test.go:64-70 | trim of `_this_is__a___test_.png_` with cutset `_` is `this_is_a_test.png` |
| StageExamples.StripControlExample | fn_test.go:5-12 | the control characters of the test string go and everything else stays |
| StageExamples.StripSpecialExample | fn_test.go:21-28 | the punctuation of the test string goes; control characters and spaces stay |
| StageExamples.ReplaceSpacesExample | fn_test.go:37-45 | every space of the test string becomes `_` |
| MixedExample.MixedStripControl | fn_test.go:82 | the first shell test name loses exactly its seven control characters |
| MixedExample.MixedStripSpecial | fn_test.go:82 | then its punctuation goes and the spaces between the punctuation stay |
| MixedExample.MixedReplaceSpaces | fn_test.go:82 | then every space becomes `_` |
| MixedExample.RunsBeforeWord | fn.go:105-107 | two runs of different separators before a word each shrink to one copy and stay side by side |
| MixedExample.WordBeforeRuns | fn.go:105-107 | the same for two runs after a word |
| MixedExample.MixedTrim | fn.go:93-114 | its three dot segments are trimmed to `test_123`, `45` and `png` |
| MixedExample.FixForShellMixedExample | fn_test.go:81-87 | FixForShell turns the first test name into `test_123.45.png` |
| ShellExamples.CollapseDoubled | fn.go:99 | a doubled separator becomes one copy, while two different separators in a row are kept |
| ShellExamples.BadNameStripSpecial | fn_test.go:89 | stripping specials from the test name keeps its words and spaces |
| ShellExamples.BadNameTrim | fn_test.go:89-91 | trimming the test name after space replacement leaves `thí_is_a_reallybadfilename.png` |
| ShellExamples.FixForShellBadNameExample | fn_test.go:89-94 | FixForShell turns `--thí$ is (a really<bad>){file*/name}- .png ` into `thí_is_a_reallybadfilename.png` |

## Left out

- The command-line tool in fn/fn.go is not part of this model: flag parsing, directory listing, and copying or moving files with a worker pool. That is I/O and concurrency.
- `ud.Unidecode` is a transliteration table from another package. It is a function parameter of `FixForURL`, and nothing is assumed about it.
- Go's `regexp` engine is not modelled. Each regular expression is modelled by its effect on a string. This assumes the cutset holds no character that is special inside a bracket expression: `]`, `\`, a leading `^`, or a `-` between two other characters, which makes a range. The cutsets used are `-_ ` (fn.go:30, fn.go:47), whose `-` comes first and so is literal, and the one-character cutsets `-` and `_` of the tests (fn_test.go:57, fn_test.go:65).
- Invalid UTF-8 is left out. Go decodes it to U+FFFD while ranging over a string; the model starts from decoded code points.
- The FixForURL tests (fn_test.go:104-118) are left out. They depend on the transliteration table, and they expect `_` where fn.go:44 produces `-`.
- The benchmarks in fn_test.go are left out.
- Fix.FixForURL: states no safety property of the result's characters, because transliteration can produce any code point.
- Fix.FixForURLIdempotent: also requires that the result is safe and that the transliteration leaves it unchanged, because nothing is known about the transliteration table.
- Fix.FixForShellIdempotent: holds only when the stages' output needs no cut. The longer case fails (`Fix.FixForShellCutExample`).
- Fix.FixForShell: the placeholder is stated to follow from an empty result of the stages, not the converse, which fails for the placeholder name itself (`Fix.PlaceholderFixesToItself`).
- Fix.FixForShell: promises only `CutSegments`, not clean segments, when a cut happened, because a cut can end on a separator.

## Findings

| source | as written | input that shows it | evidently intended | confidence | as-written member | corrected member |
|---|---|---|---|---|---|---|
| fn.go:122 | the copy loop stops only when its counter exceeds `length`, so `length + 1` code points survive a cut | 255 copies of `a` followed by `_b`: FixForShell returns 256 code points ending in `_` | a cut keeps exactly `length` code points, so a fixed name never exceeds `MaxLenShell` or `MaxLenURL` | high; not executed | Truncation.TruncateOffByOne | Truncation.TruncateIntended |
| fn.go:31 | FixForShell applies the off-by-one truncation, so a result can exceed `MaxLenShell` | the same 257-code-point name gives a 256-code-point result | FixForShell returns at most `MaxLenShell` code points | high; not executed | Fix.FixForShellCutExample | Fix.FixForShellIntended |
