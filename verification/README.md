# Org chart PDF: a Dafny model of its core

This project models the core of a Java component that turns a JSON list of
organisational positions into a one-page PDF org chart. The component has
four stages, and the model follows them.

1. **Parsing and reconciliation** (`OrgChartParser`).
   - Each JSON record becomes a `Position`.
   - Records that share a `PositionID` are merged.
   - Children are linked to parents by matching `ParentHierarchyCode` against `HierarchyCode`.
   - A root is chosen.
   - `sumNorm` totals the norms of a tree.
2. **Layout** (`OrgChartLayout`).
   - Every node gets a box of fixed size.
   - Children go one row lower, left to right.
   - A parent with several children is centred over its first and last child.
   - `calculatePageSize` estimates a page size from the widest level and the depth of the tree.
3. **Styling** (`Style`, `Colors`).
   - The geometry constants.
   - The hex-to-colour decoder.
   - The border colour of each title code.
4. **Rendering geometry** (`OrgChartRenderer`).
   - The bounds of the laid-out boxes and the page size chosen for them.
   - The shift that centres the tree below the header.
   - Text sanitising, word wrapping and line truncation.
   - The footer's height, border and text baselines.

The files and their modules:

| file | module | models |
|---|---|---|
| `wrappers.dfy` | `Wrappers` | `Option` and `Result` |
| `jdk.dfy` | `Jdk` | the JDK behaviour the code relies on |
| `json.dfy` | `Json` | a parsed JSON value and `get` / `getAsString` |
| `position.dfy` | `Positions` | `Position.java` |
| `ingestion.dfy` | `Ingestion` | `parsePositionFlat` and the top-level loop of `parse` |
| `reconciler.dfy` | `Reconciler` | `buildTreeFromFlatList`, `mergePositions`, `clonePosition`, `parse` |
| `normsum.dfy` | `NormTotals` | `sumNorm` |
| `colors.dfy` | `Colors` | `Colors.java` |
| `style.dfy` | `Style` | `Style.java` |
| `treeshape.dfy` | `TreeShape` | `calculatePageSize`, `calculateMaxWidth`, `calculateDepth`, `calculateSubtreeWidth` |
| `layout.dfy` | `Layout` | `layoutTree`, `layoutNode` |
| `renderer.dfy` | `Render` | `LayoutResult`, page size, header, tree translation, footer |
| `rendertext.dfy` | `RenderText` | `sanitizeText`, `wrapText`, line truncation in `drawCenteredText` |

The `Jdk` module covers:
- 32-bit wrap-around;
- `trim`;
- `Integer.parseInt`;
- `split("/")`;
- `split("\\s+")`.

Modelling choices:
- **Node identity.** Java keys the layout map by object identity. A tree never shares a node, so the model names each node by its path of child indices from the root.
- **The reconciled graph.** After reconciliation the positions form an id-indexed graph (`Reconciler.Chart`). `Reconciler.Unfold` turns it into the tree a recursive walk sees. It fails with the id where the walk would re-enter its own ancestry, which is where the Java recursion would never end.
- **HashMap iteration order.** The model takes this order as a parameter (`order`). It decides two things: the order of children and the last-resort root.
- **Font metrics.** Text width is a parameter (`width`).
- **Floating point.** `float` coordinates are modelled as reals.
- **As written and corrected.** `Layout.LayoutTreeAsWritten` and `Render.BoundsAsWritten` are the code as written, and `Render.PageLayout` builds the page from them, as `render` does. `Layout.LayoutTree`, `Render.BoundsOf` and `Render.CorrectedPageLayout` are the corrections described under Findings.

## Model

| member | source | states |
|---|---|---|
| Jdk.Wrap32 | pdf/OrgChartParser.java:59 | `intValue()` of an integral number keeps the low 32 bits: the result is an `int`, it is congruent to the input modulo 2^32, and an input already in `int` range is unchanged |
| Jdk.Wrap32Add | pdf/OrgChartParser.java:280 | adding `int`s with wrap-around gives the wrapped exact sum, however often the intermediate results wrap |
| Jdk.DoubleToInt32 | pdf/OrgChartParser.java:79 | `intValue()` of a fractional number truncates toward zero and saturates at the `int` bounds |
| Jdk.Trim | pdf/OrgChartParser.java:83 | `trim()` returns the middle slice of the text: everything before and after it is a character at most `' '`, and it neither starts nor ends with one |
| Jdk.TrimRemovesPadding | pdf/OrgChartParser.java:83 | trimming padding around a text that has no padding at either end gives back exactly that text |
| Jdk.ParseInt32 | pdf/OrgChartParser.java:85 | `Integer.parseInt` succeeds only on an optional sign followed by decimal digits of any script. Unsigned and `'+'` digits in range parse to their value, `'-'` digits to its negation down to `Integer.MIN_VALUE`, and with or without a sign, digits fail exactly when there are none or their value is out of range |
| Jdk.CharDigit | pdf/OrgChartParser.java:85 | `Character.digit` is below the radix, reads an ASCII digit as itself, and gives a Latin letter 10 or more |
| Jdk.DecimalDigitSpec | pdf/OrgChartParser.java:85 | a character is a decimal digit exactly when it lies in one of the Unicode runs of ten decimal digits, and its value is its distance from the run's zero |
| Jdk.ParseFullwidth | pdf/OrgChartParser.java:85 | fullwidth `"１２"` parses to 12 |
| Jdk.ParseArabicIndic | pdf/OrgChartParser.java:85 | Arabic-Indic `"-١٢"` parses to -12 |
| Jdk.ParseSuperscriptFails | pdf/OrgChartParser.java:85 | `"1²"` does not parse: a superscript is not a decimal digit |
| Jdk.ParseDecimalRoundTrip | pdf/OrgChartParser.java:85 | every `int` written in decimal parses back to itself |
| Jdk.JoinPieces | pdf/OrgChartParser.java:198 | the pieces of a code between its `'/'` characters join back to the code |
| Jdk.DropTrailingEmpty | pdf/OrgChartParser.java:198 | `split` drops exactly the trailing empty pieces: the result is a prefix, it ends in a non-empty piece, and everything dropped was empty |
| Jdk.SegmentCountExamples | pdf/OrgChartParser.java:198 | `split("/").length` is 1 for `""`, 0 for `"/"`, 2 for `"/a"`, 1 for `"2/"` and 3 for `"1//2"` |
| Jdk.SegmentCountNoTrailingSlash | pdf/OrgChartParser.java:198 | for a code that does not end in `'/'`, the length is the number of pieces between slashes |
| Jdk.SplitOnSpace | pdf/OrgChartRenderer.java:566 | `split("\\s+")` returns words with no whitespace, of which only the first may be empty; a text without whitespace is a single word |
| Jdk.SplitOnSpaceCollapses | pdf/OrgChartRenderer.java:566 | the non-empty words of `split("\\s+")`, joined by single spaces, are exactly `Collapsed(s)`: the text with every maximal whitespace run made one space and the runs at both ends removed, defined independently by a left-to-right scan; no word is lost, split, merged or reordered |
| Jdk.SqueezeWords | pdf/OrgChartRenderer.java:566 | the scan behind `Collapsed`, started in any state, writes the words of the whitespace split joined by single spaces, after a separating space exactly when a word came before and whitespace follows it |
| Jdk.SplitOnSpaceBlank | pdf/OrgChartRenderer.java:566 | a text of one space splits into no words at all: every piece is a trailing empty one |
| Json.IntValue | pdf/OrgChartParser.java:59 | `Number.intValue()` is always an `int`, and it is exact when the number is an `int` |
| Json.Get | pdf/OrgChartParser.java:57-58 | `get(key)` finds a value exactly when the key is present, and that value is the one of the last field with that key |
| Json.AsString | pdf/OrgChartParser.java:63 | `getAsString` yields `null` exactly for a JSON `null`, and a JSON string is returned as is |
| Json.ObjectsSpec | pdf/OrgChartParser.java:31-37 | the `instanceof JSONObject` filter returns only objects of the array and every one of them; an array of objects comes back whole, one without objects gives nothing |
| Json.ObjectsConcat | pdf/OrgChartParser.java:31-37 | the objects of two joined arrays are those of the first followed by those of the second |
| Positions.NewPosition | pdf/Position.java:18-21 | a new position has every field `null`, except an empty child list and a norm of 0 |
| Positions.SetPositionId | pdf/Position.java:27-29 | sets the id and changes nothing else |
| Positions.SetPositionName | pdf/Position.java:35-37 | sets the name and changes nothing else |
| Positions.SetHierarchyCode | pdf/Position.java:43-45 | sets the hierarchy code and changes nothing else |
| Positions.SetParentHierarchyCode | pdf/Position.java:51-53 | sets the parent code and changes nothing else |
| Positions.SetNorm | pdf/Position.java:55-61 | after setting, `getNorm` reads the value set, or 0 for `null`; nothing else changes |
| Positions.SetTitleCode | pdf/Position.java:67-69 | sets the title code and changes nothing else |
| Positions.SetPositions | pdf/Position.java:71-77 | after setting, `getPositions` reads the list set, or an empty list for `null`; nothing else changes |
| Ingestion.NormFromJson | pdf/OrgChartParser.java:74-92 | a `Norm` is kept only when it is positive and in `int` range. A number is kept iff its `intValue` is positive. A string is kept iff its trimmed text parses as an `int` greater than 0. Anything else, or blank text, gives `null` |
| Ingestion.NormStringRoundTrip | pdf/OrgChartParser.java:81-92 | a padded decimal string gives back the number when it is positive, and `null` otherwise |
| Ingestion.NormNumber | pdf/OrgChartParser.java:78-80 | an integral `Norm` is kept exactly when it is positive |
| Ingestion.ParseFields | pdf/OrgChartParser.java:54-102 | the name, hierarchy code, parent code and title code are `getAsString` of their keys. The id is the `intValue` of a numeric `PositionID` and absent otherwise. The norm is `NormFromJson` of `Norm` when that key is present, and 0 without it. The child list starts empty |
| Ingestion.NestedChildren | pdf/OrgChartParser.java:105-120 | nested `Positions` entries become at most one child each, and every such child's own child list is cleared |
| Ingestion.NestedChildrenSpec | pdf/OrgChartParser.java:105-120 | there is one child per object entry, in order, and each is exactly the record's own fields read from that object |
| Ingestion.ParseRecord | pdf/OrgChartParser.java:54-123 | apart from its child list, a record is its fields as `ParseFields` reads them. When `Positions` holds an array, the children are the objects of that array read field by field, in order; otherwise there are none. The norm is at least 0 and no child has children |
| Ingestion.TopLevelRecords | pdf/OrgChartParser.java:28-40 | a top-level array yields one record per object, in order, and nothing for other entries. A top-level object yields itself as the one record. Anything else yields none. No record has a negative norm |
| Ingestion.RecordsOf | pdf/OrgChartParser.java:31-37 | an array yields at most one record per element, none with a negative norm |
| Ingestion.RecordsOfSpec | pdf/OrgChartParser.java:31-37 | the records of an array are exactly its objects, each parsed as a record, in array order |
| NormTotals.Preorder | pdf/OrgChartParser.java:271-284 | the node list the total runs over starts with the node itself |
| NormTotals.TreeSumIsNodeSum | pdf/OrgChartParser.java:271-284 | the recursive total equals the sum of the norms of all nodes of the tree, listed one by one |
| NormTotals.SumNormNonNegative | pdf/OrgChartParser.java:271-284 | with no negative norm in the tree, the exact total is not negative |
| NormTotals.SumNormExample | pdf/OrgChartParser.java:271-284 | a norm of 5 over children with 3 and `null` totals 8 |
| NormTotals.TreeSumInt32 | pdf/OrgChartParser.java:277-283 | the total as written in `int` arithmetic is always an `int` |
| NormTotals.TreeSumInt32Wraps | pdf/OrgChartParser.java:277-283 | the `int` total as written is the exact total wrapped to 32 bits |
| NormTotals.SumNormInt32 | pdf/OrgChartParser.java:271-284 | `sumNorm` as written returns an `int`, 0 for `null` |
| NormTotals.SumNormOverflows | pdf/OrgChartParser.java:271-284 | a root with norm `Integer.MAX_VALUE` over a child with norm 1 totals `Integer.MIN_VALUE` as written, but `2^31` exactly |
| Reconciler.MergePositions | pdf/OrgChartParser.java:234-251 | the first list is kept as a prefix, and after it come exactly those items of the second list whose id is not among the first list's ids |
| Reconciler.MergeSelf | pdf/OrgChartParser.java:234-251 | merging a list with itself adds nothing |
| Reconciler.MergeDisjoint | pdf/OrgChartParser.java:234-251 | merging lists with no shared id concatenates them |
| Reconciler.Clone | pdf/OrgChartParser.java:256-266 | a clone has the original's label fields, a norm of `getNorm()` (so never `null`) and a copy of `getPositions()` |
| Reconciler.RegisterAllById | pdf/OrgChartParser.java:137-164 | step 1 registers exactly the ids that occur. Each entry keeps the label of the id's first record. Its norm is the first positive norm among that id's records, or the first record's norm when there is none |
| Reconciler.RegisterAllByCode | pdf/OrgChartParser.java:137-164 | a hierarchy code is indexed exactly when a record that is first with its id carries that non-empty code, and its first entry is that record's id |
| Reconciler.RegisterAllLinked | pdf/OrgChartParser.java:158-161 | every code in the index names a registered position first |
| Reconciler.ParentOf | pdf/OrgChartParser.java:174-182 | the parent found through the code index is a registered position |
| Reconciler.LinkAll | pdf/OrgChartParser.java:172-184 | every registered position gets a child list, and the lists hold only visited ids |
| Reconciler.LinkAllChildren | pdf/OrgChartParser.java:172-184 | `c` is a child of `x` exactly when `x` is the first position filed under `c`'s parent code |
| Reconciler.LinkAllDistinct | pdf/OrgChartParser.java:172-184 | no child list holds an id twice |
| Reconciler.LinkAllCongruent | pdf/OrgChartParser.java:172-184 | the child lists depend on the registry only through each position's parent |
| Reconciler.CandidatePass | pdf/OrgChartParser.java:186-207 | the candidate pass picks only a visited position |
| Reconciler.CandidatePassSpec | pdf/OrgChartParser.java:186-207 | the pass picks the first coded root candidate with the fewest `'/'` segments. Without one it picks the first root candidate, and without candidates it picks nothing |
| Reconciler.CodePass | pdf/OrgChartParser.java:209-221 | the code pass returns a visited position or its start |
| Reconciler.CodePassSpec | pdf/OrgChartParser.java:209-221 | from no pick, the pass picks the first coded position with the fewest segments, or nothing when no position has a code |
| Reconciler.SelectRoot | pdf/OrgChartParser.java:186-226 | the root is one of the positions |
| Reconciler.SelectRootSpec | pdf/OrgChartParser.java:186-226 | the root is the first shortest coded root candidate; else the first uncoded candidate; else the first shortest coded position; else the first position in iteration order. There is no root only when there are no positions |
| Reconciler.Cleared | pdf/OrgChartParser.java:166-170 | step 2 keeps every registered position with its label and norm, and leaves each with an empty, non-null child list |
| Reconciler.ParentOfRecords | pdf/OrgChartParser.java:173-184 | a position's parent is the first record filed under its parent code |
| Reconciler.BuildTree | pdf/OrgChartParser.java:128-229 | a reconciled chart is well formed: the root and every linked child are registered positions |
| Reconciler.BuildTreeSpec | pdf/OrgChartParser.java:128-229 | there is a chart exactly when some record has an id. Its positions are exactly those ids, each with its first record's label, its merged norm and no stale children. `y` is a child of `x` exactly when `x` owns `y`'s parent code |
| Reconciler.BuildTreeIsTree | pdf/OrgChartParser.java:173-207 | no position has two parents, and a root with an empty parent code unfolds into a finite tree |
| Reconciler.OrphanRootUnfolds | pdf/OrgChartParser.java:173-184 | when every position has at most one parent and the root has none, the walk from the root ends |
| Reconciler.SelfChildFails | pdf/OrgChartParser.java:173-184 | a position listed among its own children makes the walk never end |
| Reconciler.SlashRootNeverEnds | pdf/OrgChartParser.java:173-207 | a single record with code `"/"` and parent code `"/"` becomes its own child and is still chosen as root, so the tree walk never ends |
| Reconciler.DoubledIds | pdf/OrgChartParser.java:141-152 | repeating every record leaves each id's first record and merged norm unchanged |
| Reconciler.DoubledOwner | pdf/OrgChartParser.java:158-161 | repeating every record leaves each code's owner unchanged |
| Reconciler.DuplicateRecords | pdf/OrgChartParser.java:133-229 | a list given twice reconciles to the same chart as the list given once |
| Reconciler.Parse | pdf/OrgChartParser.java:20-48 | a parsed chart is well formed |
| Reconciler.ParseSpec | pdf/OrgChartParser.java:20-48 | there is a chart exactly when the text is not blank and some top-level record has an id. Its positions are the top-level ids, and no norm is negative |
| Reconciler.UnfoldTotalNonNegative | pdf/OrgChartParser.java:271-284 | over a chart with no negative norm, every tree the walk unfolds has a total that is not negative |
| Reconciler.ParsedTotalNonNegative | pdf/OrgChartParser.java:271-284 | the exact total norm of the tree of a parsed document is never negative |
| Colors.RemoveHash | pdf/Colors.java:34 | `replace("#", "")` leaves no `'#'`, never lengthens the text, and leaves text without `'#'` as it is |
| Colors.HexDigitIsCharDigit | pdf/Colors.java:36-38 | the hex digit read for a character is `Character.digit(c, 16)`, for digits and letters of every script |
| Colors.ParsePair | pdf/Colors.java:36-38 | `Integer.valueOf` of two characters in base 16 lies in -15..255, and it is negative only with a leading `'-'` |
| Colors.HexToColor | pdf/Colors.java:33-40 | a decoded colour has every component in 0..255, and fewer than two digits after removing `'#'` fail on the index |
| Colors.HexRoundTrip | pdf/Colors.java:33-40 | every colour written as six hex digits, in either case, decodes back to itself |
| Colors.HexIgnoresTail | pdf/Colors.java:33-40 | only the first six characters after removing `'#'` matter |
| Colors.DecodePlain | pdf/Colors.java:35-39 | six digits decode to their three pairs, or fail on the component range when one pair is out of it |
| Colors.HexSignAccepted | pdf/Colors.java:36-38 | a sign is accepted as the first character of a pair: `"+f0000"` decodes to (15, 0, 0) |
| Colors.HexNegativeRejected | pdf/Colors.java:35-39 | a negative pair parses but is rejected by the colour constructor |
| Colors.HexMalformed | pdf/Colors.java:33-40 | `"#abc"` fails on the index and `"#zz0000"` on the number format |
| Colors.HashThenDigits | pdf/Colors.java:34 | a leading `'#'` does not change the decoding |
| Colors.BlueBordersDecode | pdf/Colors.java:14-18 | the blue border literals decode to their RGB values |
| Colors.WarmBordersDecode | pdf/Colors.java:19-30 | the warm border literals and the default `#dddddd` decode to their RGB values |
| Colors.GetBorderColor | pdf/Colors.java:26-31 | a title code in the table gets its table colour; the default grey is returned exactly for `null`, empty or unknown codes |
| Style.EffectiveSizes | pdf/Style.java:59-60 | a node slot is 189 by 240 points, larger than the box it holds |
| Style.PageBoundsOrdered | pdf/Style.java:63-66 | the page bounds are positive and each minimum is at most its maximum |
| Style.GeometryPositive | pdf/Style.java:11-68 | every size, margin and font size is positive, and every padding except the footer's horizontal padding, which is zero |
| Style.StyleColorsDecode | pdf/Style.java:26-55 | the node background, line and footer text colours decode from their literals |
| TreeShape.LeavesAreLeafNodes | pdf/OrgChartLayout.java:119-134 | the subtree width of a tree is the number of its nodes without children |
| TreeShape.SubtreeWidth | pdf/OrgChartLayout.java:119-134 | the subtree width is 0 exactly for `null` |
| TreeShape.Depth | pdf/OrgChartLayout.java:100-114 | a tree has depth at least 1 |
| TreeShape.LevelOccupied | pdf/OrgChartLayout.java:83-114 | a level holds a node exactly when it is above the depth |
| TreeShape.LevelWithinLeaves | pdf/OrgChartLayout.java:83-134 | no level holds more nodes than the tree has leaves |
| TreeShape.CountLevelsAdds | pdf/OrgChartLayout.java:83-95 | `calculateMaxWidth` adds to each level's count the number of nodes on that level, and creates entries only for the levels of the tree |
| TreeShape.WidestLevel | pdf/OrgChartLayout.java:54-59 | the maximum over the first `n` levels bounds every one of them and is attained by one |
| TreeShape.MaxTallyIsWidest | pdf/OrgChartLayout.java:54-59 | the loop over the map's values finds the widest level |
| TreeShape.MaxWidthSpec | pdf/OrgChartLayout.java:51-59 | the map's keys are levels 0 to depth-1; the maximum count bounds every level, is attained, and lies between 1 and the leaf count |
| TreeShape.CalculatePageSize | pdf/OrgChartLayout.java:46-78 | the page size lies within the configured bounds, and it is the minimum for `null` |
| TreeShape.PageSizeRoom | pdf/OrgChartLayout.java:70-75 | unless capped, the width has room for 1.2 times the widest level plus the extra, and the height for 1.3 times the depth plus the extra |
| TreeShape.PageSizeMonotone | pdf/OrgChartLayout.java:46-78 | a tree with at least as many nodes on every level never gets a smaller page |
| Layout.PlaceKey | pdf/OrgChartLayout.java:153-206 | a node gets a box exactly when it lies in the subtree |
| Layout.PlaceKeys | pdf/OrgChartLayout.java:153-206 | every node of the subtree gets a box and nothing else does |
| Layout.FootprintBounds | pdf/OrgChartLayout.java:119-206 | a footprint is between one slot and one slot per leaf. It is exactly one slot per leaf when widened, or when no node has a single child |
| Layout.CorrectionConservative | pdf/OrgChartLayout.java:172-182 | where no node has a single child, the corrected layout places every box where the code does |
| Layout.PlaceBox | pdf/OrgChartLayout.java:153-206 | every box has the node size, the level of its depth, and a top edge one slot height lower per level. It never lies left of the start, and when widened never past the footprint |
| Layout.ParentPlacement | pdf/OrgChartLayout.java:172-203 | a node with at most one child sits at the start x. With several children, its centre is the midpoint of the centres of its first and last child |
| Layout.ChildPlacement | pdf/OrgChartLayout.java:169-192 | child `j` and its subtree are laid out one row lower, starting at the parent's x plus the footprints of the children before it |
| Layout.LayoutTreeNodes | pdf/OrgChartLayout.java:139-148 | in the layout as written and the corrected one, `null` gets no boxes; otherwise every node of the tree gets one and nothing else does |
| Layout.PlaceSpan | pdf/OrgChartLayout.java:153-206 | in either layout, no box starts further right than the last of one slot per leaf of the subtree |
| Layout.PlaceOnRows | pdf/OrgChartLayout.java:153-206 | every box of a subtree laid out from the root level has the node size, sits on the row of its depth, and lies within one slot per leaf right of the start |
| Layout.LayoutTreeBoxes | pdf/OrgChartLayout.java:139-206 | in the layout as written and the corrected one, every box has the node size, sits on the row of its depth, and lies within one slot per leaf right of the start |
| Layout.NoOverlap | pdf/OrgChartLayout.java:153-206 | no two boxes of the corrected layout overlap |
| Layout.ForkPlacement | pdf/OrgChartLayout.java:172-203 | as written, a single child with two leaves reports one slot; the top node is at the start x, its two leaves sit one slot apart two rows below, and the child is centred between them |
| Layout.SingleChildOffCentre | pdf/OrgChartLayout.java:172-182 | a single child with two children of its own is not below its parent: it is centred over its own children |
| Layout.ChainPlacement | pdf/OrgChartLayout.java:172-182 | a chain of single children stacks straight down |
| Layout.SingleChildOverlap | pdf/OrgChartLayout.java:172-182 | as written, two distinct nodes get the identical box |
| Render.ScanSpec | pdf/OrgChartRenderer.java:45-50 | the loop's bounds contain the seed and every box, and each edge comes from the seed or from a box |
| Render.BoundsOfSpec | pdf/OrgChartRenderer.java:34-59 | the corrected bounds contain every box, and each edge is the edge of some box |
| Render.ScanHull | pdf/OrgChartRenderer.java:45-50 | running the loop from a combined seed combines the seed with the result |
| Render.SeedLeaks | pdf/OrgChartRenderer.java:37-50 | the bounds as written are the corrected bounds widened to include the seed's `Float.MIN_VALUE` maxima |
| Render.MaxYAboveTree | pdf/OrgChartRenderer.java:37-40 | for the root box at 0, the maximum y as written is `Float.MIN_VALUE`, while the corrected one is 0 |
| Render.MaxYAsWritten | pdf/OrgChartRenderer.java:37-50 | when no box reaches above 0, the maximum y as written is `Float.MIN_VALUE`, above every box |
| Render.PageWidth | pdf/OrgChartRenderer.java:156-159 | the page is at least the minimum width and has room for the tree plus the padding on both sides; it is exactly one of the two |
| Render.PageHeight | pdf/OrgChartRenderer.java:152-160 | the page is at least the minimum height and has room for the tree, header, footer and padding; it is exactly one of the two |
| Render.TreeTop | pdf/OrgChartRenderer.java:173-181 | the tree starts below the header, and one norm-label line lower exactly when a non-blank label is shown |
| Render.HeaderTitle | pdf/OrgChartRenderer.java:196-202 | the drawn title is "Organization Chart" for a `null` or empty title and the sanitised title otherwise; it is never empty and holds only ASCII characters without line breaks |
| Render.Translate | pdf/OrgChartRenderer.java:356-375 | the shift keeps every node and every box size and level, and moves all boxes by the same offset |
| Render.TranslateFrame | pdf/OrgChartRenderer.java:356-375 | after the shift, the tree is centred on the page and its top edge is at the start height |
| Render.TranslateKeepsApart | pdf/OrgChartRenderer.java:356-375 | the shift keeps non-overlapping boxes apart |
| Render.Values | pdf/OrgChartRenderer.java:45 | `values()` lists one box per key in iteration order; every listed box is a value of the map, and when the order lists every key, every value of the map is listed |
| Render.ValuesEnclosed | pdf/OrgChartRenderer.java:34-59 | the bounds of the map's values, as the constructor computes them and as corrected, contain every box of the map |
| Render.PageLayout | pdf/OrgChartRenderer.java:113-126 | the page `render` builds from the layout and bounds as written keeps every laid-out node, and is at least the minimum size and large enough for the bounds, header, footer and padding |
| Render.CorrectedPageLayout | pdf/OrgChartRenderer.java:113-126 | the same page built from the corrected layout and bounds has the same guarantees |
| Render.PageRoom | pdf/OrgChartRenderer.java:152-184 | the page leaves the padding on both sides of the centred tree, and the tree ends above the footer border |
| Render.TreeFitsPage | pdf/OrgChartRenderer.java:113-184 | on the page as written, exactly the nodes of the tree get a box, and every box lies within the side padding, below the header and above the footer border |
| Render.CorrectedTreeFitsPage | pdf/OrgChartRenderer.java:113-184 | on the corrected page the same holds, and in addition no two boxes overlap |
| Render.PageOverlapsAsWritten | pdf/OrgChartRenderer.java:113-126 | on the page as written for the overlap tree of the Findings, the leaves `[0,0,1]` and `[1,0,0]` are drawn in the same box |
| Render.CountIsNonEmpty | pdf/OrgChartRenderer.java:602-607 | the count is the number of non-empty footer lines |
| Render.TextBlockHeight | pdf/OrgChartRenderer.java:609-611 | the text block is empty exactly when no line is, and otherwise at least one line high |
| Render.FooterContentHeight | pdf/OrgChartRenderer.java:612-613 | the footer content is as tall as the taller of the text and the image |
| Render.FooterBorderY | pdf/OrgChartRenderer.java:614-625 | the border sits one gap above the content, which sits on the bottom margin |
| Render.FooterBorderFixed | pdf/OrgChartRenderer.java:596-617 | three footer lines never outgrow the image, so the border is always at 175, inside the footer height the page reserves |
| Render.FooterText | pdf/OrgChartRenderer.java:657-671 | the non-empty lines are drawn last first, each baseline one line spacing above the previous |
| Render.FooterTextBelowBorder | pdf/OrgChartRenderer.java:625-671 | every footer baseline lies within the text block, below the border |
| RenderText.CollapseBreaks | pdf/OrgChartRenderer.java:221 | collapsing leaves no line break, never lengthens the text, and keeps non-empty text non-empty |
| RenderText.CollapseKeepsPlain | pdf/OrgChartRenderer.java:221 | text without line breaks is unchanged |
| RenderText.CollapseRun | pdf/OrgChartRenderer.java:221 | a maximal run of line breaks becomes one space |
| RenderText.ReplaceChar | pdf/OrgChartRenderer.java:222-227 | `replace` keeps the length and changes exactly the occurrences of one character; afterwards the replaced character is gone, and text without it is unchanged |
| RenderText.ReplaceCharIdempotent | pdf/OrgChartRenderer.java:222-227 | replacing twice is replacing once, and the new character appears exactly where the old or the new one was |
| RenderText.ReplaceEachPointwise | pdf/OrgChartRenderer.java:222-227 | the chain of replacements works character by character |
| RenderText.ChainIsLookup | pdf/OrgChartRenderer.java:222-227 | with ASCII stand-ins, the chain acts as a table lookup |
| RenderText.TransliterationsAscii | pdf/OrgChartRenderer.java:222-227 | every Turkish letter is replaced by an ASCII letter |
| RenderText.MaskNonAscii | pdf/OrgChartRenderer.java:228 | every non-ASCII character becomes `'?'` and everything else stays; the result is all ASCII |
| RenderText.MaskIdempotent | pdf/OrgChartRenderer.java:228 | masking twice is masking once, and ASCII text comes back unchanged |
| RenderText.Transliterate | pdf/OrgChartRenderer.java:222-227 | each character becomes its stand-in, and line breaks stay line breaks |
| RenderText.SanitizeText | pdf/OrgChartRenderer.java:217-229 | `null` gives `""`; the result is ASCII without line breaks, no longer than the input, and non-empty for non-empty input |
| RenderText.SanitizePointwise | pdf/OrgChartRenderer.java:217-229 | text without line breaks is sanitised character by character |
| RenderText.SanitizeKeepsPlainText | pdf/OrgChartRenderer.java:217-229 | ASCII text without line breaks is unchanged |
| RenderText.SanitizeIdempotent | pdf/OrgChartRenderer.java:217-229 | sanitising twice is sanitising once |
| RenderText.WrapWordsWellWrapped | pdf/OrgChartRenderer.java:566-585 | the loop's lines keep all the words in order. No line is empty. A line with a space fits the width, and each line break happens because the next word did not fit |
| RenderText.WrapBreakStep | pdf/OrgChartRenderer.java:573-576 | a word that does not fit closes the line and starts the next one |
| RenderText.WrapFitStep | pdf/OrgChartRenderer.java:577-579 | a word that fits joins the current line |
| RenderText.WrapTextWellWrapped | pdf/OrgChartRenderer.java:558-587 | `wrapText` of non-empty text is a well-wrapped layout of its words |
| RenderText.WrapShortText | pdf/OrgChartRenderer.java:558-587 | a single word is one line, however wide |
| RenderText.TruncateFits | pdf/OrgChartRenderer.java:521-527 | at least one line is kept. The kept lines fit the height when one line does, and nothing is cut when all lines fit |
| RenderText.NodeNameLines | pdf/OrgChartRenderer.java:495-510 | a node name gets 6 lines when a norm is shown and 8 when none is |

## Left out

- JSON text parsing: the model takes an already parsed JSON value; `parse` with `null` or blank text is `None`. The permissive JSON parser is not modelled.
- Logging in `parsePositionFlat` and the image-loading error handling of the footer: they have no effect on the result.
- PDF output: drawing, fonts, connecting lines, rounded rectangles, the footer image and the header drawing calls.
- Font metrics: text width is the parameter `width`.
- IEEE `float` rounding: coordinates are exact reals and `1.2f`, `1.3f` and `1.4f` are taken as the decimals 1.2, 1.3 and 1.4.
- `HashMap` iteration order: an explicit parameter, since the JDK does not specify it.
- `java.awt.Color` is the record `Colors.Rgb`; the alpha channel is not modelled.
- Jdk.CharDigit: the decimal digits are the basic-plane runs of Unicode 15 (`Jdk.DecimalZeros`); a JDK built on another Unicode version may know a different set of runs.
- Supplementary characters: a Dafny `char` is one Unicode scalar value, while Java counts a character outside the basic plane as two `char`s (a surrogate pair). The model counts it once, so lengths and indices of such text differ from Java's. `replaceAll` matches by code point, so `RenderText.MaskNonAscii` writes one `'?'` for such a character, as Java does; only an unpaired surrogate, which a Dafny `char` cannot hold, is not modelled.
- `PAGE_EXTRA_HORIZONTAL_PADDING` is read by `renderPage` but not defined in `Style`, so the extra padding is the parameter `extraPad` (non-negative where a lemma needs it).
- `calculatePageSize` is modelled and proved, but the renderer never calls it: the page size comes from `LayoutResult`.
- Render.FooterText: it returns the raw lines and their baselines; sanitising each line is `RenderText.SanitizeText`, which the drawing call applies.
- Colors.HexToColor: a short input returns the error `BadIndex` (the `StringIndexOutOfBoundsException`) instead of throwing; the three exceptions are the three `ColorError` cases.
- NormTotals.SumNormNonNegative: it requires that no norm in the tree be negative. A `Position` built by hand can hold one. The parser never produces one, as `Reconciler.ParsedTotalNonNegative` shows.
- `layoutNode(null)` returning 0 and `null` entries inside child lists: the parser never puts `null` in a list, so child lists hold positions only.
- The single child is placed at its parent's x origin, not centred under the parent. This follows the code (`Layout.SingleChildOffCentre`).
- Nested `Positions` entries take no part in building the tree: their lists are cleared, and ids seen only there are dropped (`Reconciler.ParseSpec`). This follows the code; there is no id-based nesting strategy.
- Layout.NoOverlap and the other layout lemmas hold for trees; the Java layout map is keyed by object identity, which a parsed tree never repeats.

## Findings

| source | as written | input that shows it | evidently intended | confidence | as-written member | corrected member |
|---|---|---|---|---|---|---|
| pdf/OrgChartParser.java:271-284 | `sumNorm` adds norms in `int`, so the total wraps past `Integer.MAX_VALUE` | a root with norm 2147483647 over one child with norm 1 totals -2147483648 | the exact total of the norms, which is never negative | not executed | NormTotals.SumNormOverflows | NormTotals.SumNormNonNegative |
| pdf/OrgChartLayout.java:172-182 | a node with a single child reports one slot as its footprint, however wide the child's subtree is | a root whose first child has one child with two leaves and whose second child has one child with one leaf: the leaves `[0,0,1]` and `[1,0,0]` get the same box, on the page too (`Render.PageOverlapsAsWritten`) | a single child's footprint is the wider of one slot and the child's own footprint, so boxes never overlap, on the page too (`Render.CorrectedTreeFitsPage`) | not executed | Layout.SingleChildOverlap | Layout.NoOverlap |
| pdf/OrgChartRenderer.java:37-40 | the maxima start at `Float.MIN_VALUE`, the smallest positive `float`, not the most negative one | a tree laid out from y = 0 has all its boxes at or below 0, yet its maximum y comes out as `Float.MIN_VALUE` | every edge is the edge of some box. The shift is off by 2^-149 points, which is below `float` resolution at page coordinates | not executed | Render.MaxYAboveTree | Render.BoundsOfSpec |
