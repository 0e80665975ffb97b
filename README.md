# searchxml matching engine, in Dafny

searchxml is a structural grep for XML. It walks every element of a parsed
document and reports the elements whose namespace, tag name, attributes and
raw content all match independent regular expressions. With `-color` it
highlights what matched in terminal colours. This project models the
matching engine of `main.go` and proves properties of it:

- `walk`, the depth-first pre-order traversal with pruning and early abort
  (`Walker`);
- `matchAttr`, the AND-of-ORs attribute test, and the four-stage cascade
  of the visitor in `matchXML` (`Matcher`);
- `highLight`, the colour passes (`Highlight`), with Go's
  `strings.ReplaceAll`, which it calls, and `strings.Split`, which
  `compileAttr` calls (`GoStrings`; `GoStrings.Join` is only the reference
  against which `ReplaceAll` is checked);
- the `=` split and compilation of `-attr` arguments in `compileAttr`
  (`Config`).

The document tree (`XmlTree.Node`) is a datatype: a qualified name, the
attributes in document order, the raw inner markup as a string, and the
element children. The regular-expression engine is abstract.
`Regex.Regexp` carries two total functions: `matches` (Go's unanchored
`MatchString`) and `findSubmatch` (`FindStringSubmatch`). Nothing ties the
two together: `Regex.Consistent` states when they agree as Go's do (no
submatch exactly when there is no match), and the stand-in patterns of the
examples in `Matcher` match without finding submatches, so they serve for
matching only. `regexp.Compile` and `html.UnescapeString` are parameters of the
members that use them.

`walk` and `matchAttr`, `highLight` and `compileAttr` run loops, so they are
methods with loop invariants. Each is proved against a function:
`WalkSpec` (which nodes are visited, and the error returned), `AttrsMatch`,
`Highlighted` and `CompileEntry`. The cascade is nested conditionals, so
it is a function (`Report`). A visitor is a function from a node to
`Visit(descend, err, output)`. Its `output` stands for what the Go closure
prints, and the walk concatenates it in call order.

Two details follow the code of `main.go` closely:

- Highlighting wraps every submatch the engine returns, the whole match
  first, even when two submatches are the same string. It is not limited
  to distinct submatches.
- The namespace and the tag are highlighted whenever colours are on and
  their stage passed. Content is unescaped before highlighting. The
  submatches are then looked for in the unescaped text.

One consequence of the code is shown rather than changed.
Each pass runs over the string as earlier passes left it, codes
included. When a later submatch occurs inside an earlier colour code, that
pass rewrites the code. `Highlight.HighlightRewritesEarlierCodes` shows the
pattern `(3)` on the text `3`: the terminal then shows `31;1m3`.
`Highlight.HighlightSingleIsPresentation` proves that a single pass over
text without escape codes never changes the visible text.

## Model

| member | source | states |
|---|---|---|
| `Walker.Walk` | main.go:32-45 | the error returned and the concatenated visitor output are those of the walk `WalkSpec` describes: visit each node in order, stop at the first visitor error, descend only when told to, and return a child walk's error at once |
| `Walker.WalkAppend` | main.go:33-43 | walking `a + b` is walking `a` and, unless that failed, then walking `b`; the visited nodes concatenate |
| `Walker.WalkVisitsAll` | main.go:32-45 | a visitor that always returns (true, nil) is called on exactly the pre-order listing of the forest, and the walk returns no error |
| `Walker.WalkPrunes` | main.go:38-42 | a node whose visit says "do not descend" is visited, none of its descendants is, and its following siblings are walked as usual |
| `Walker.WalkErrorIsFirst` | main.go:34-41 | the error returned is the last visited node's visit error; every earlier visit returned no error; with no error returned, no visit failed |
| `Walker.WalkVisitsPrefix` | main.go:34-41 | with a visitor that always descends, the visited nodes are a prefix of the pre-order listing (nothing after the failing node is visited) and are the whole listing when there is no error |
| `Walker.WalkExample` | main.go:32-45 | on root(child1(grandchild), child2) the visit order is root, child1, grandchild, child2 |
| `XmlTree.PreOrderAppend` | main.go:33-43 | the pre-order listing of siblings side by side is the listing of each in sequence order |
| `XmlTree.PreOrderTree` | main.go:34-41 | a tree is listed parent first, then its children's listing |
| `XmlTree.PreOrderLength` | main.go:17-22 | the listing has one entry per node of the forest: each node exactly once |
| `XmlTree.PreOrderClosed` | main.go:38-41 | the children of a listed node are listed: the listing reaches every descendant |
| `Matcher.MatchAttr` | main.go:47-67 | true iff every pair is satisfied by one single attribute whose local name matches the key pattern and whose value matches the value pattern; true for no pairs; false for pairs and no attributes |
| `Matcher.AttrsMatchPairs` | main.go:48-64 | the attribute stage over `p + q` holds iff it holds over `p` and over `q` (AND over pairs) |
| `Matcher.AttrsMatchMoreAttrs` | main.go:50-58 | adding attributes before or after never makes a matching attribute list stop matching (OR over attributes) |
| `Matcher.AttrExampleBothPairs` | main.go:47-67 | {id="5", class="x"} fails the pairs (id, \d+), (class, y) |
| `Matcher.AttrExampleOnePair` | main.go:47-67 | {id="5", class="x"} passes the pair (id, \d+) alone |
| `Matcher.AttrExampleSameAttribute` | main.go:52-57 | {id="x", class="5"} fails (id, \d+): key and value must match on the same attribute |
| `Matcher.Report` | main.go:101-135 | a node yields a record iff its namespace, tag, attributes and raw (not unescaped) content all pass; the record carries the file name and attributes, the plain strings without colours, and the highlighted namespace, tag and unescaped content with colours |
| `Matcher.MatchVisit` | main.go:100-137 | the visitor always descends and never fails, and emits one record exactly for a node that passes all four stages, none otherwise |
| `Matcher.MatchXML` | main.go:100-142 | walking a decoded document succeeds and emits, in pre-order, the visitor's records for every node of the tree |
| `Matcher.ReportedIff` | main.go:100-137 | a record is printed iff some node of the document, at any depth, passes all four stages and renders as that record |
| `Matcher.DescendantReported` | main.go:100-137 | every passing child of any node of the document is reported, whether or not its ancestors pass |
| `Matcher.DefaultFiltersReportAll` | main.go:100-137 | with match-all namespace, tag and content patterns and no -attr pair, one record is printed per element |
| `Highlight.HighLight` | main.go:69-83 | the result is the input after one replace-all pass per submatch in order, the i-th submatch wrapped in colour 31 + i, each pass over the previous pass's output; the input unchanged when there is no submatch |
| `Highlight.Decimal` | main.go:78 | the %d rendering of the colour is a non-empty string of decimal digits with no leading zero |
| `Highlight.ColorOpen` | main.go:78 | the opening code is one control sequence: ESC first, `m` last, and neither ESC nor `m` inside |
| `Highlight.Wrap` | main.go:79 | a submatch without ESC, wrapped in its colour and the reset, shows on the terminal as itself |
| `Highlight.DecimalRoundTrip` | main.go:78 | the %d rendering reads back as the colour number |
| `Highlight.VisibleReplaceWrap` | main.go:78-79 | one colour pass over text without escape codes leaves the visible text unchanged |
| `Highlight.HighlightSingleIsPresentation` | main.go:69-83 | for input without escape codes and a single submatch, highlighting only adds codes: what the terminal shows is the input |
| `Highlight.HighlightWrapsEveryOccurrence` | main.go:79 | replace-all semantics: in "ab ab" both occurrences of "ab" are wrapped |
| `Highlight.HighlightRewritesEarlierCodes` | main.go:74-81 | a later pass also rewrites inside codes inserted by earlier passes: with submatches ["3", "3"] on "3" the terminal shows "31;1m3" |
| `GoStrings.Split` | main.go:185 | splitting on a non-empty separator gives at least one piece |
| `GoStrings.ReplaceAll` | main.go:79 | a replacement as long as its non-empty target keeps the length of the string |
| `GoStrings.InsertEverywhereLength` | main.go:79 | an empty target inserts the replacement once per rune boundary: one copy per rune of the string and one more |
| `GoStrings.InsertEverywhereEnds` | main.go:79 | with an empty target the result starts and ends with the replacement |
| `GoStrings.SplitFirstIsPrefix` | main.go:185 | the first piece of a split is a prefix of the argument |
| `GoStrings.SplitPiecesFree` | main.go:185 | no piece of a split on a non-empty separator contains the separator |
| `GoStrings.ReplaceAllIsJoinSplit` | main.go:79 | replacing a non-empty target everywhere is splitting on it and joining with the replacement |
| `GoStrings.ReplaceAllSelf` | main.go:79 | replacing a non-empty target by itself changes nothing |
| `GoStrings.ReplaceAllAbsent` | main.go:79 | a string in which the target does not occur is left unchanged |
| `GoStrings.SplitJoin` | main.go:185 | joining the pieces of a split with the separator restores the argument |
| `GoStrings.SplitOnRuneLength` | main.go:185-186 | splitting on one rune gives one piece more than the rune's occurrences |
| `GoStrings.SplitInTwo` | main.go:185-188 | splitting on "=" gives exactly two pieces iff the argument contains exactly one "=" |
| `Config.CompileEntry` | main.go:184-202 | an -attr argument is refused by the split iff it does not contain exactly one "="; an accepted argument is key + "=" + value, without other "=", with both halves compiled |
| `Config.CompileEntryWellFormed` | main.go:185-202 | an argument with exactly one "=" is accepted when both halves compile; otherwise a failing key gives the key error and then a failing value the value error, both naming the text before the "=" |
| `GoStrings.SplitAtRune` | main.go:185 | splitting `k=v` on "=" with no "=" in either half gives exactly `[k, v]` |
| `GoStrings.SplitAbsentRune` | main.go:185 | splitting on an absent rune gives the string as its only piece |
| `GoStrings.SplitFirstIsLeftmost` | main.go:185 | the first piece ends at the leftmost occurrence of the separator, also for a separator that overlaps itself |
| `Config.SplitPieces` | main.go:185-197 | the two pieces of an accepted argument are the text before and after its one "=" |
| `Config.CompileAttr` | main.go:181-206 | accepted iff every argument is; then one pair per argument in order; otherwise the error is that of the first failing argument, every earlier one having succeeded |

## Left out

- File reading and XML decoding (`ioutil.ReadFile`, `xml.NewDecoder`, `UnmarshalXML`, main.go:24-30, 87-98) are I/O and a foreign parser; the decoded tree is an input, and their two error returns are not modelled.
- The regular-expression engine and `compileParams` (main.go:161-179) are library calls; patterns are abstract, and `regexp.Compile` is a parameter of `Config.CompileAttr`.
- `html.UnescapeString` is a library call; it is the parameter `unescape`.
- The output format of `fmt.Println` (main.go:122-130) is presentation; a printed match is a `Matcher.Record`.
- The scheduler in `work` (main.go:208-239: semaphore, goroutines, wait group) is about concurrency; its bound on parallel scans and its per-file error logging are not modelled.
- Flag parsing, `flagList` and `main` (main.go:145-154, 241-263) are configuration plumbing.
- `log.Fatalf` ends the process; `Config.CompileAttr` returns `SplitFailed` for it instead and does not model the exit.
- `Walker.Walk`: the visitor is a function of the node alone, so a visitor whose decisions depend on its earlier calls is not modelled; the one visitor in the program keeps no such state.
- `Highlight.HighLight`: the guard `l < 1 && index == 0` (main.go:75) can never hold inside the loop (a loop step means `l >= 1`), so the model has no such branch.
- `Matcher.MatchXML`: the walk error wrapped as "unable to walk" (main.go:138-140) is modelled but cannot arise, since the visitor never fails.
- Strings are sequences of runes: invalid UTF-8 and the byte-level view of `[]byte` content are not modelled; `ReplaceAll` with an empty target inserts before every rune and at the end, as Go does for valid UTF-8.
