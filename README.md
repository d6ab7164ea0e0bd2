# tochhc2md in Dafny

A model of `tochhc2md`, a small Go program. It turns a Microsoft HTML Help
table of contents (`.hhc`) into the `SUMMARY.md` list of a Markdown book.
The program:

1. lower-cases the whole document and deletes every newline, carriage
   return, tab and space;
2. walks the text once, left to right, with a cursor, a depth counter and
   a growing list of nodes. It recognises three markers:
   - `<ul>` increments the depth;
   - `</ul>` decrements it;
   - `<object` cuts out a block from the `<object` marker to the end of
     the first `</object>` found from the cursor (not from the marker), and
     reads its `name` and `local` parameters. A node is appended only when
     both parameters are non-empty.
3. writes each node as `- [name](local)`, indented two spaces per level of
   depth, under the heading `# Summary`.

The model has five modules:

- `Search` (`search.dfy`) models Go's `strings.Index`. It proves that
  `Index` finds the first occurrence and returns -1 exactly when there is
  none. It also proves what the program's "found and earlier, or the other
  one is absent" comparisons mean.
- `Normalization` (`normalization.dfy`) models the lower-casing and blank
  deletion, and proves the result normal, idempotent and case-blind.
- `Params` (`params.dfy`) models `extractParam`. `ValueAfter` is the search
  it makes once its pattern is built.
- `Scanner` (`scanner.dfy`) models the scan loop:
  - `ScanStep` is one iteration, as a function of the cursor.
  - `Scan` is the sequence of branches the loop takes, and `NodesOf` the
    nodes those branches yield.
  - `Run` is the loop as a state machine over cursor, depth and nodes.
  - The method `Iterate` is one pass of the loop body, proved to take the
    `ScanStep` branch.
  - The method `ParseHtml` is the loop itself. Its invariant is that
    `Run` from the current state equals `Run` from the initial state, and
    it is proved to return `Parse`.
- `Summary` (`summary.dfy`) holds the method `GenerateSummary`, the loop
  over the string builder, proved to produce `Render`. The method
  `Summarize` is `main`'s pipeline: parse, render, prepend the heading.

Go's two run-time panics are explicit `Panic` results:

- `SliceBounds`: the object-block slice at main.go line 84 has its bounds
  out of order or out of range.
- `NegativeRepeat`: `strings.Repeat` at line 118 gets a negative depth.

Three facts about the scan loop, proved from the code:

- **A lone list.** A document that normalises to `<ul>body</ul>`, with no
  other list marker in `body`, yields no node, even when `body` holds a
  complete object block with both parameters. (An object block outside
  the list is still taken.) The `</ul>` branch
  (lines 75-77) only checks that no `<ul>` comes first; it never checks
  whether an `<object` comes first. Once the `<ul>` is consumed, the loop
  jumps past `</ul>` and skips the object (`CloseSkipsObjects`,
  `LoneListYieldsNothing`).
- **A missing `</object>`.** A missing `</object>` does not stop the
  scan. `endObject` is `-1 + pos + 9`, that is `pos + 8`, which is never
  -1, so the test at line 80 cannot fire (lines 79-81). The loop either
  cuts a block that ends at `pos + 8` and goes on, or panics on the slice
  (`ObjectBlockUnclosed`).
- **No ties.** No two of `<ul>`, `</ul>` and `<object` can start at the
  same index, so the order in which the loop compares the three
  `strings.Index` results never decides between markers at the same
  position (`MarkersNeverTie`, `FirstMarkersNeverTie`).

## Model

| member | source | states |
|---|---|---|
| `Search.Index` | main.go:64-66 | `strings.Index` returns -1 or an index at which the whole pattern fits in the text |
| `Search.IndexFirst` | main.go:64-66 | `strings.Index` returns -1 exactly when the pattern does not occur, and otherwise the index of its first occurrence |
| `Search.IndexIsFirst` | main.go:64-66 | whichever index is the first occurrence is what `strings.Index` returns |
| `Search.PrecedesByIndex` | main.go:72-75 | the test "a found and (a before b or b absent)" on two `strings.Index` results holds exactly when some occurrence of a has no occurrence of b at or before it |
| `Normalization.Lower` | main.go:53 | an upper-case ASCII letter becomes the lower-case letter at the same place in the alphabet, every other character is kept, and blanks stay blanks |
| `Normalization.ToLower` | main.go:53 | lower-casing keeps the length and maps every character through `Lower` in place |
| `Normalization.Delete` | main.go:54-57 | `ReplaceAll` with "" removes exactly the given character and keeps every other one |
| `Normalization.Normalize` | main.go:53-57 | the normalised text is no longer than the document and holds no newline, carriage return, tab, space or upper-case letter |
| `Normalization.NormalizeAppend` | main.go:53-57 | normalising a concatenation is concatenating the normalised parts |
| `Normalization.NormalizeIsSqueeze` | main.go:53-57 | the four deletions after lower-casing equal one character-by-character pass that drops blanks and lowers the rest |
| `Normalization.NormalizeIdempotent` | main.go:53-57 | normalising twice gives the same text as normalising once |
| `Normalization.NormalizeIgnoresCase` | main.go:53 | documents that differ only in the case of letters normalise to the same text |
| `Params.ValueAfter` | main.go:102-111 | the extracted value holds no quote, every character comes from the block, and a non-empty value sits between the pattern and a quote in the block |
| `Params.ValueAfterWithoutPattern` | main.go:102-105 | without the pattern the value is empty |
| `Params.ValueAfterWithoutClosingQuote` | main.go:106-110 | with no quote after the first pattern the value is empty |
| `Params.ValueAfterExact` | main.go:102-111 | the value is exactly the text between the first pattern and the next quote |
| `Params.ExtractParamWithoutPattern` | main.go:101-105 | `extractParam` returns "" when `name="<key>"value="` does not occur |
| `Params.ExtractParamWithoutClosingQuote` | main.go:101-110 | `extractParam` returns "" when no quote follows the first `name="<key>"value="` |
| `Params.ExtractParamValue` | main.go:101-111 | `extractParam` returns exactly the text between the first `name="<key>"value="` and the next quote |
| `Scanner.MarkersNeverTie` | main.go:64-66 | `<ul>`, `</ul>` and `<object` never start at the same index |
| `Scanner.FirstMarkersNeverTie` | main.go:64-66 | no two of the three `strings.Index` results are equal unless both are -1 |
| `Scanner.ListBranchesExclusive` | main.go:72-78 | the `<ul>` and `</ul>` conditions never both hold; when a list marker remains, one of them holds or an `<object` comes first |
| `Scanner.ScanStep` | main.go:64-94 | a step that moves the cursor moves it strictly forward and not past the end; a cut block starts at or after the cursor |
| `Scanner.ScanStepBranches` | main.go:64-94 | the loop stops exactly when no marker is left; the `<ul>` branch fires exactly when a `<ul>` precedes every `</ul>` and `<object`; the `</ul>` branch fires exactly when a `</ul>` precedes every `<ul>`, wherever `<object` is; otherwise an object is cut or the slice panics |
| `Scanner.ObjectBlockClosed` | main.go:78-86 | the `</object>` search starts at the cursor, not at `<object`: the block runs from `<object` through the first `</object>` after the cursor, and if that ends before the `<object`, the slice panics |
| `Scanner.ObjectBlockUnclosed` | main.go:79-84 | with no `</object>` ahead, the dead `endObject == -1` test does not stop the loop: the block ends at cursor + 8, or the slice panics |
| `Scanner.CloseSkipsObjects` | main.go:72-77 | with no `<ul>` left, the loop takes the first `</ul>` in one step, skipping every object block before it |
| `Scanner.OpeningListFirst` | main.go:72-74 | a text starting with `<ul>` first enters a list and moves past the marker |
| `Scanner.StopsAtEnd` | main.go:68-70 | at the end of the text no marker is found and the loop breaks |
| `Scanner.LoneListTrace` | main.go:63-95 | over `<ul>body</ul>` with no other list marker, the loop takes one `<ul>` step and one `</ul>` step, then stops |
| `Scanner.LoneListYieldsNothing` | main.go:53-97 | a document that normalises to one lone list yields no node, whatever objects it holds |
| `Scanner.Scan` | main.go:63-95 | the loop runs at most one iteration per remaining character |
| `Scanner.NodesOf` | main.go:85-92 | there are no more nodes than iterations, and every node has a non-empty name and a non-empty target |
| `Scanner.NodesOfPrefix` | main.go:90 | nodes are only appended: the nodes after part of a run are a prefix of the nodes after the whole run |
| `Scanner.ScanBlocksNormal` | main.go:84 | every block cut from the normalised text is itself normalised |
| `Scanner.NodesOfNormal` | main.go:85-90 | nodes built from normalised blocks have normalised, quote-free names and targets |
| `Scanner.ParseNodesNormal` | main.go:53-97 | every node `parseHTML` returns has a lower-case, blank-free, quote-free name and target |
| `Scanner.StepFollowsEvent` | main.go:72-93 | one iteration keeps the loop's state in step with the branches taken: from the depth and nodes of the branches so far, it reaches the depth and nodes of those branches followed by this one |
| `Scanner.RunFollowsScan` | main.go:59-95 | the loop's depth is always the number of `<ul>` steps minus `</ul>` steps so far, and its node list always the nodes of the steps so far |
| `Scanner.ParseIsRun` | main.go:53-97 | `Parse` is what the loop returns from cursor 0, depth 0 and no nodes |
| `Scanner.Iterate` | main.go:64-94 | one pass of the loop body takes the `ScanStep` branch, moves the depth by one for list markers, and appends the block's node for objects |
| `Scanner.ParseHtml` | main.go:53-97 | `parseHTML` after the file is read returns exactly `Parse`: the nodes, or the slice panic |
| `Summary.Indent` | main.go:118 | `strings.Repeat("  ", depth)` is `2 * depth` characters long |
| `Summary.IndentSpaces` | main.go:118 | the indentation consists of spaces only |
| `Summary.GenerateSummary` | main.go:115-121 | `generateSummary` writes exactly the lines of `Render`, one per node in order, or panics exactly when some depth is negative |
| `Summary.LineIsOneLine` | main.go:118-119 | a node whose name and target hold no newline takes exactly one line |
| `Summary.RenderLines` | main.go:115-121 | the summary holds exactly one newline per node |
| `Summary.ReadItemInverse` | main.go:119 | `name](local)` followed by a newline reads back as the name and target, when the name holds no `]` and the target no `)` |
| `Summary.ReadLineInverse` | main.go:118-119 | a written line reads back as the same node: the depth from the indentation, then the name and target |
| `Summary.Summarize` | main.go:19-29 | the program's output is the heading followed by the summary of the parsed nodes, or the first panic |
| `Summary.NoMarkersBareHeading` | main.go:19-29 | a document with no marker after normalisation gives only the heading |
| `Summary.SummaryLines` | main.go:25-29 | a successful run writes the heading followed by exactly one line per node |

## Left out

- Argument handling and console output (main.go lines 13-16, 21-23 and
  36) are left out: they print messages and never change what is written.
- Reading the file and writing `SUMMARY.md` (lines 31-34 and 48-51) are
  left out, with their panics. The model takes the file's contents as a
  string and returns the text that would be written.
- The logging set-up on line 12 only chooses the format of log messages,
  and the program logs nothing, so it is left out.
- `Normalization.Lower`: only the ASCII letters `A`-`Z` are lowered.
  `strings.ToLower` also folds non-ASCII letters. Texts are sequences of
  characters, not UTF-8 bytes. For ASCII documents the two agree, and
  every marker and pattern the program looks for is ASCII.
- `Scanner.ObjectBlockUnclosed`: Go's `pos + 8` on the unclosed-object
  path (main.go line 79) counts bytes, while the model counts characters.
  The two differ on non-ASCII text. Take the text after the cursor to be
  `ééééé<object` with no `</object>`. Go finds `<object` at byte 10, which
  is past `pos + 8`, so the slice panics. The model finds it at character
  5, which is within `pos + 8`, so it cuts a block.
- `fmt.Sprintf` (lines 102, 106 and 119) is modelled as string
  concatenation, since its `%s` verbs insert their arguments verbatim.
  The `strings.Builder` (lines 116-121) is modelled as a string that
  grows.
- A panic is modelled by its reason only. Go's panic message and stack
  trace are not modelled.
