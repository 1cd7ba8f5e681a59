# Spillover CSV to FlowJo converter, modelled in Dafny

The batch script `inst/batch/convert_spillover_to_flowjo.py` reads a spillover matrix from a
CSV file. The first line lists the dyes. Every later line is one row: a quoted dye label and
then one coefficient per header dye. The script checks that the row labels are the header
dyes, then writes the matrix as FlowJo gating-ML text:

- a main header and a matrix header that carries the matrix name and a fresh identifier;
- one parameter line per dye;
- one spillover block per dye, holding one coefficient line per dye;
- the closing lines.

Every value goes into its template line through `substitute_value`, a plain string splice:
find `attr="`, find the next `"`, and put the value between them.

The model follows the script piece by piece:

| file | module | what it holds |
|---|---|---|
| `pystr.dfy` | `PyStr` | Python 2 string operations the script uses: `rstrip()`, `strip('"')`, `split(',')`, `find`, slice bounds |
| `lists.dfy` | `Lists` | generic facts about mapping over sequences and indexing concatenations |
| `splice.dfy` | `Splice` | `substitute_value` exactly as written, with what it does on lines that hold the marker, lack it, or lack a closing quote |
| `sanitize.dfy` | `Sanitize` | the `string.maketrans` table and `translate`, which replace `/` with `_` in dye names |
| `csv.dfy` | `SpilloverCsv` | the read loop as a method, proved equal to `Parse`; also round trips for header lines and row lines |
| `validate.dfy` | `DyeCheck` | `sorted(keys) != sorted(dyes)`, proved equivalent to "same names, each header dye once"; the condition under which every `spillover[d][d2]` lookup succeeds |
| `flowjo.dfy` | `FlowJo` | the templates and the text of each filled-in line |
| `writer.dfy` | `Writer` | the print loops as methods, proved equal to `Render`, or to `PartialRender` when a lookup fails; `Render` is the line-by-line layout of the output file |
| `convert.dfy` | `Convert` | the whole script: argument check, read, dye check and write, as an `Outcome` with exit status and message; end-to-end properties |

The output file is modelled as its sequence of lines, the text of each `print` without the
line break. The main header holds a line break itself, so it is two lines. When the matrix name, the dyes
and the coefficient texts hold no line break, each modelled line is one physical line of the file
(`Writer.PhysicalLines`). Numbers are never
parsed: coefficients stay text, copied verbatim.

## Model

| member | source | states |
|---|---|---|
| PyStr.RStrip | inst/batch/convert_spillover_to_flowjo.py:67 | `rstrip()` returns a prefix of the line that is empty or does not end in white space |
| PyStr.Strip | inst/batch/convert_spillover_to_flowjo.py:68 | `strip('"')` returns no longer text that neither starts nor ends with `"` |
| PyStr.StripExact | inst/batch/convert_spillover_to_flowjo.py:68 | `strip('"')` removes any number of surrounding quotes, and gives back exactly the text between them when that text has no quote at either end |
| PyStr.JoinSplit | inst/batch/convert_spillover_to_flowjo.py:67 | joining the pieces of `split(',')` with `,` gives the line back |
| PyStr.SplitJoin | inst/batch/convert_spillover_to_flowjo.py:73 | splitting a `,`-joined list of comma-free cells gives the cells back |
| PyStr.Find | inst/batch/convert_spillover_to_flowjo.py:35-36 | `find(m, start)` is -1 when `m` does not occur at or after `start`, and otherwise the first position at or after `start` where it occurs |
| PyStr.SliceBound | inst/batch/convert_spillover_to_flowjo.py:37-38 | a slice bound `i` of a string of length `n` is `i` when `0 <= i <= n`, `i + n` when `-n <= i < 0`, `0` below `-n` and `n` above `n`, as Python clamps slice bounds |
| Splice.SubstituteValue | inst/batch/convert_spillover_to_flowjo.py:32-38 | defined as `substitute_value` computes it, the `find` results and the slice bounds included; characterised by SpliceResult, SpliceUnclosed, SpliceMissing, SplicePlaceholder and SpliceChars |
| Splice.Marker | inst/batch/convert_spillover_to_flowjo.py:33 | the searched marker is the attribute followed by `=` and `"` |
| Splice.SpliceResult | inst/batch/convert_spillover_to_flowjo.py:32-38 | with a first marker at `p` and the next `"` at `q`, the result is the line up to the end of that marker, the new value, and the line from `q` on |
| Splice.SpliceUnclosed | inst/batch/convert_spillover_to_flowjo.py:36-38 | with no `"` after the marker, `find` gives -1 and only the line's last character follows the new value |
| Splice.SpliceMissing | inst/batch/convert_spillover_to_flowjo.py:35-38 | with no marker, the value is still spliced in, after the first `len(attribute) + 1` characters |
| Splice.SplicePlaceholder | inst/batch/convert_spillover_to_flowjo.py:32-38 | on `before attr="after` with no marker in `before`, the value lands right after that marker; the rest is kept, and the length grows by the value's length |
| Splice.SpliceIntoPlaceholder | inst/batch/convert_spillover_to_flowjo.py:32-38 | `head attr="" tail` becomes `head attr="value" tail` when `head` holds no marker |
| Splice.SpliceChars | inst/batch/convert_spillover_to_flowjo.py:32-38 | every character of the result comes from the line or from the new value, whether or not the searches succeed |
| Splice.Filled | inst/batch/convert_spillover_to_flowjo.py:36-37 | a filled attribute is three characters longer than its name and value and ends in the closing `"`; SpliceIntoPlaceholder shows that the splice turns an empty attribute into it |
| Splice.FilledParts | inst/batch/convert_spillover_to_flowjo.py:36-37 | a filled attribute is the marker `attribute="`, then the value, then the closing `"` |
| Sanitize.Translate | inst/batch/convert_spillover_to_flowjo.py:105-106 | `translate` keeps the length and maps each character through the table, leaving characters not in it alone |
| Sanitize.SanitizeDye | inst/batch/convert_spillover_to_flowjo.py:122 | defined as `d.translate(dye_substitution_table)`; characterised by SanitizeDyeSpec, SanitizeIdempotent, SanitizeKeepsClean, SanitizeKeepsInert and SanitizeKeepsChar |
| Sanitize.SanitizeDyeSpec | inst/batch/convert_spillover_to_flowjo.py:26-27 | a sanitised name has the input's length, `_` wherever the input has `/`, every other character unchanged, and no `/` |
| Sanitize.TranslateIdempotent | inst/batch/convert_spillover_to_flowjo.py:105-106 | translating twice equals translating once when no replacement is itself replaced |
| Sanitize.SanitizeIdempotent | inst/batch/convert_spillover_to_flowjo.py:122 | sanitising twice equals sanitising once |
| Sanitize.SanitizeKeepsClean | inst/batch/convert_spillover_to_flowjo.py:122 | a name without `/` is unchanged |
| Sanitize.SanitizeKeepsInert | inst/batch/convert_spillover_to_flowjo.py:133 | sanitising neither adds nor removes `"` or `=` |
| Sanitize.SanitizeKeepsChar | inst/batch/convert_spillover_to_flowjo.py:122 | sanitising neither adds nor removes any character other than `/` and `_` |
| Sanitize.SanitizeExample | inst/batch/convert_spillover_to_flowjo.py:105-106 | `FL1/FL2` becomes `FL1_FL2` |
| SpilloverCsv.Cells | inst/batch/convert_spillover_to_flowjo.py:67 | `line.rstrip().split(',')` is never an empty list; JoinSplit gives the stripped line back from it |
| SpilloverCsv.NonEmpty | inst/batch/convert_spillover_to_flowjo.py:69-70 | the kept words are no more than the cells, and none is empty |
| SpilloverCsv.NonEmptyCounts | inst/batch/convert_spillover_to_flowjo.py:69-70 | the header filter keeps each non-empty word exactly as often as it occurs and drops every empty word |
| SpilloverCsv.NonEmptyAppend | inst/batch/convert_spillover_to_flowjo.py:69-70 | the filter works word by word: filtering a concatenation is concatenating the filtered parts, so the kept words stay in their order |
| SpilloverCsv.HeaderDyes | inst/batch/convert_spillover_to_flowjo.py:67-70 | defined as the header loop computes it; characterised by ReadHeader and HeaderRoundTrip |
| SpilloverCsv.ReadHeader | inst/batch/convert_spillover_to_flowjo.py:67-70 | the header loop yields `HeaderDyes`: the quote-stripped non-empty cells of the first line, in order |
| SpilloverCsv.Parse | inst/batch/convert_spillover_to_flowjo.py:60-75 | defined as the read loop computes it; characterised by ReadSpillover, which proves the loop equal to it, and by RowsKeys, RowsValue and HeaderRoundTrip |
| SpilloverCsv.ReadSpillover | inst/batch/convert_spillover_to_flowjo.py:60-75 | the read loop yields `Parse(lines)`: dyes from the first line only, and each later line stored under its label as the zip of the dyes with its cells, a later row replacing an earlier one |
| SpilloverCsv.RowLabel | inst/batch/convert_spillover_to_flowjo.py:74 | defined as `words[0].strip('"')`; characterised by RowRoundTrip |
| SpilloverCsv.RowCells | inst/batch/convert_spillover_to_flowjo.py:73-75 | defined as `words[1:]`; characterised by RowRoundTrip |
| SpilloverCsv.Rows | inst/batch/convert_spillover_to_flowjo.py:72-75 | defined as the row loop computes it; characterised by RowsStep, RowsKeys and RowsValue |
| SpilloverCsv.RowsStep | inst/batch/convert_spillover_to_flowjo.py:73-75 | one more row line sets its label to the zip of the header dyes with its cells |
| SpilloverCsv.PairUp | inst/batch/convert_spillover_to_flowjo.py:75 | defined as `dict` over a list of pairs computes it; characterised by PairUpKeys and PairUpValue |
| SpilloverCsv.Zip | inst/batch/convert_spillover_to_flowjo.py:75 | defined as `dict(zip(keys, values))`, `zip` stopping at the shorter list; characterised by ZipKeys, ZipValue and ZipDistinct |
| SpilloverCsv.PairUpKeys | inst/batch/convert_spillover_to_flowjo.py:75 | the keys of `dict` over pairs are the keys listed |
| SpilloverCsv.PairUpValue | inst/batch/convert_spillover_to_flowjo.py:75 | a key not repeated later maps to its own value |
| SpilloverCsv.ZipKeys | inst/batch/convert_spillover_to_flowjo.py:75 | `dict(zip(dyes, cells))` holds exactly the dyes that found a cell |
| SpilloverCsv.ZipValue | inst/batch/convert_spillover_to_flowjo.py:75 | a dye with a cell and no later repeat maps to that cell |
| SpilloverCsv.ZipDistinct | inst/batch/convert_spillover_to_flowjo.py:75 | with distinct dyes and enough cells, the row holds every dye, each with its own cell |
| SpilloverCsv.RowsKeys | inst/batch/convert_spillover_to_flowjo.py:72-75 | the matrix's labels are the labels of the row lines |
| SpilloverCsv.RowsValue | inst/batch/convert_spillover_to_flowjo.py:72-75 | the row stored under a label comes from the last line with that label |
| SpilloverCsv.HeaderRoundTrip | inst/batch/convert_spillover_to_flowjo.py:63-71 | a header line written from plain names, bare or quoted, reads back as exactly those names in order |
| SpilloverCsv.RowRoundTrip | inst/batch/convert_spillover_to_flowjo.py:72-75 | a row line reads back as its label and its cells, verbatim |
| DyeCheck.Less | inst/batch/convert_spillover_to_flowjo.py:77 | Python 2's `<` on strings: lexicographic on characters, a proper prefix being smaller; characterised by the five lemmas that follow |
| DyeCheck.LessIrreflexive | inst/batch/convert_spillover_to_flowjo.py:77 | no string is smaller than itself |
| DyeCheck.LessAsymmetric | inst/batch/convert_spillover_to_flowjo.py:77 | two strings are never each smaller than the other |
| DyeCheck.LessTransitive | inst/batch/convert_spillover_to_flowjo.py:77 | `<` on strings is transitive |
| DyeCheck.LessTotal | inst/batch/convert_spillover_to_flowjo.py:77 | two different strings are ordered one way or the other |
| DyeCheck.LessEqTransitive | inst/batch/convert_spillover_to_flowjo.py:77 | `<=` on strings is transitive |
| DyeCheck.LessEqAntisymmetric | inst/batch/convert_spillover_to_flowjo.py:77 | two strings each at most the other are equal |
| DyeCheck.Sort | inst/batch/convert_spillover_to_flowjo.py:77 | `sorted` keeps the length; SortSpec shows it gives a sorted permutation |
| DyeCheck.SortSpec | inst/batch/convert_spillover_to_flowjo.py:77 | `sorted` gives a sorted permutation |
| DyeCheck.SortedUnique | inst/batch/convert_spillover_to_flowjo.py:77 | two sorted lists with the same elements are equal |
| DyeCheck.SortEqualIff | inst/batch/convert_spillover_to_flowjo.py:77 | two sorted lists compare equal exactly when the lists are permutations of each other |
| DyeCheck.DistinctCounts | inst/batch/convert_spillover_to_flowjo.py:77 | a list has no repeats exactly when it holds each name at most once |
| DyeCheck.KeyList | inst/batch/convert_spillover_to_flowjo.py:77 | `keys()` lists each label once and lists every label |
| DyeCheck.SortedCheck | inst/batch/convert_spillover_to_flowjo.py:77 | defined as the comparison `sorted(keys) == sorted(dyes)`; characterised by SortedCheckIff |
| DyeCheck.SortedCheckIff | inst/batch/convert_spillover_to_flowjo.py:77-81 | whatever order `keys()` takes, the sorted lists are equal exactly when labels and dyes are the same multiset |
| DyeCheck.DyesMatchIff | inst/batch/convert_spillover_to_flowjo.py:77-81 | that holds exactly when the header names each dye once and the labels are the set of header dyes |
| DyeCheck.CompleteNeedsLongRows | inst/batch/convert_spillover_to_flowjo.py:135 | if every lookup succeeds, the last row under each label has at least as many cells as there are dyes |
| DyeCheck.LongRowsComplete | inst/batch/convert_spillover_to_flowjo.py:135 | if those rows are long enough and the labels match, every lookup `spillover[d][d2]` succeeds |
| DyeCheck.CompleteIff | inst/batch/convert_spillover_to_flowjo.py:75-77 | after the check passes, the lookups all succeed exactly when no row that counts is short: `zip` drops dyes silently and the check never looks at the cells |
| FlowJo.TemplatesUnbroken | inst/batch/convert_spillover_to_flowjo.py:88-100 | every template holds no line break, except the main header |
| FlowJo.MainHeaderLines | inst/batch/convert_spillover_to_flowjo.py:88 | the main header prints as the XML declaration line and the opening `gating:gatingML` line |
| FlowJo.MatrixHeaderParts | inst/batch/convert_spillover_to_flowjo.py:91 | the matrix header template has an empty `name` and an empty `transforms:id`, between fixed attributes |
| FlowJo.MatrixNameSplice | inst/batch/convert_spillover_to_flowjo.py:113 | splicing the name fills the empty `name` attribute and changes nothing else |
| FlowJo.MatrixLine | inst/batch/convert_spillover_to_flowjo.py:112-116 | defined as the two splices compute it; characterised by MatrixNameSplice, MatrixLineText and MatrixLineUnbroken |
| FlowJo.MatrixLineText | inst/batch/convert_spillover_to_flowjo.py:112-116 | for a name free of `"` and `=`, the matrix header carries the name and the identifier in their attributes and keeps the others |
| FlowJo.MatrixLineUnbroken | inst/batch/convert_spillover_to_flowjo.py:112-116 | with no line break in the name and the identifier, the matrix header holds none |
| FlowJo.ParameterLine | inst/batch/convert_spillover_to_flowjo.py:121-122 | defined as the splice computes it; characterised by ParameterLineText and ParameterLineUnbroken |
| FlowJo.ParameterLineText | inst/batch/convert_spillover_to_flowjo.py:121-122 | a parameter line names the sanitised dye in `data-type:name` |
| FlowJo.ParameterLineUnbroken | inst/batch/convert_spillover_to_flowjo.py:121-122 | with no line break in the dye, the parameter line holds none |
| FlowJo.SpilloverLine | inst/batch/convert_spillover_to_flowjo.py:127-128 | defined as the splice computes it; characterised by SpilloverLineText and SpilloverLineUnbroken |
| FlowJo.SpilloverLineText | inst/batch/convert_spillover_to_flowjo.py:127-128 | a block opens with the sanitised dye in `data-type:parameter` |
| FlowJo.SpilloverLineUnbroken | inst/batch/convert_spillover_to_flowjo.py:127-128 | with no line break in the dye, the block header holds none |
| FlowJo.CoefficientLine | inst/batch/convert_spillover_to_flowjo.py:131-135 | defined as the two splices compute it; characterised by CoefficientParameterSplice, CoefficientValueSplice, CoefficientLineText and CoefficientLineUnbroken |
| FlowJo.CoefficientParameterSplice | inst/batch/convert_spillover_to_flowjo.py:132-133 | the first coefficient splice fills `data-type:parameter` |
| FlowJo.CoefficientValueSplice | inst/batch/convert_spillover_to_flowjo.py:134-135 | the second splice fills `transforms:value` when the first value is free of `"` and `=` |
| FlowJo.CoefficientLineText | inst/batch/convert_spillover_to_flowjo.py:131-136 | a coefficient line carries the sanitised column dye and the coefficient text verbatim |
| FlowJo.CoefficientLineUnbroken | inst/batch/convert_spillover_to_flowjo.py:131-135 | with no line break in the column dye and the coefficient text, the coefficient line holds none |
| Writer.Parameters | inst/batch/convert_spillover_to_flowjo.py:120-122 | the first `k` dyes give `k` parameter lines |
| Writer.Block | inst/batch/convert_spillover_to_flowjo.py:126-138 | a block has `n + 2` lines for `n` dyes |
| Writer.MainHeaderShown | inst/batch/convert_spillover_to_flowjo.py:110 | the first `print` shows as the first two lines of the layout |
| Writer.WritePrologue | inst/batch/convert_spillover_to_flowjo.py:110-118 | the opening prints give the main header lines, the filled matrix header and the parameter header |
| Writer.WriteParameters | inst/batch/convert_spillover_to_flowjo.py:120-122 | the parameter loop prints one parameter line per dye, in header order |
| Writer.FirstMissing | inst/batch/convert_spillover_to_flowjo.py:130-135 | the first column dye the row lacks, with entries for every dye before it |
| Writer.FirstShortRow | inst/batch/convert_spillover_to_flowjo.py:126-135 | the first header dye whose row lacks an entry, with complete rows before it |
| Writer.FirstMissingIs | inst/batch/convert_spillover_to_flowjo.py:130-135 | a missing entry after entries for all earlier dyes is the one the lookup fails on |
| Writer.FirstShortRowIs | inst/batch/convert_spillover_to_flowjo.py:126-135 | a short row after complete rows for all earlier dyes is the one the outer loop fails in |
| Writer.WriteBlock | inst/batch/convert_spillover_to_flowjo.py:127-138 | one pass of the outer loop prints the block header, a coefficient line per column dye in header order, and the footer; it reports success exactly when the row covers every dye, and otherwise stops after the coefficient lines before the first missing entry |
| Writer.WriteBlocks | inst/batch/convert_spillover_to_flowjo.py:126-138 | the outer loop prints one block per dye, in header order, and succeeds exactly when every row is complete; otherwise it stops at the first failing lookup with `PartialBlocks` printed |
| Writer.WriteFlowJo | inst/batch/convert_spillover_to_flowjo.py:108-142 | the writing part succeeds exactly when the matrix is complete and then prints `Render`; otherwise the file holds `PartialRender` |
| Writer.BlocksLength | inst/batch/convert_spillover_to_flowjo.py:126-138 | `k` blocks take `k * (n + 2)` lines |
| Writer.BlocksAt | inst/batch/convert_spillover_to_flowjo.py:126-138 | line `m` of block `i` is at `i * (n + 2) + m` among the blocks |
| Writer.LayoutLength | inst/batch/convert_spillover_to_flowjo.py:110-142 | the layout has `n * n + 3 * n + 7` lines |
| Writer.LayoutFrame | inst/batch/convert_spillover_to_flowjo.py:110-124 | the fixed lines sit at the start, after the parameters and at the end |
| Writer.LayoutParameter | inst/batch/convert_spillover_to_flowjo.py:120-122 | line `4 + i` describes the parameter of dye `i` |
| Writer.LayoutBlockLine | inst/batch/convert_spillover_to_flowjo.py:126-138 | block `i` starts at `5 + n + i * (n + 2)` |
| Writer.LayoutCoefficient | inst/batch/convert_spillover_to_flowjo.py:130-136 | line `j` of block `i` describes the coefficient of row `dyes[i]`, column `dyes[j]` |
| Writer.Render | inst/batch/convert_spillover_to_flowjo.py:110-142 | defined as the text of each line of the layout; characterised by WriteFlowJo, which proves the prints equal to it, and by the Layout and Render lemmas below |
| Writer.RenderLength | inst/batch/convert_spillover_to_flowjo.py:110-142 | the file has `n * n + 3 * n + 7` lines for `n` dyes |
| Writer.RenderFrame | inst/batch/convert_spillover_to_flowjo.py:110-142 | the header lines, the parameter header and footer, and the two closing lines are where the prints put them |
| Writer.RenderMatrixHeader | inst/batch/convert_spillover_to_flowjo.py:112-116 | for a name free of `"` and `=`, line 3 is the matrix header with that name and the identifier |
| Writer.RenderParameter | inst/batch/convert_spillover_to_flowjo.py:120-122 | line `4 + i` names the sanitised `i`-th header dye |
| Writer.RenderSpillover | inst/batch/convert_spillover_to_flowjo.py:127-128 | block `i` opens with the sanitised `i`-th header dye |
| Writer.RenderCoefficient | inst/batch/convert_spillover_to_flowjo.py:130-136 | line `j` of block `i` carries the sanitised `j`-th dye and `spillover[dyes[i]][dyes[j]]` verbatim |
| Writer.RenderBlockFooter | inst/batch/convert_spillover_to_flowjo.py:138 | each block closes after its `n` coefficient lines |
| Writer.ParametersUnbroken | inst/batch/convert_spillover_to_flowjo.py:120-122 | with no line break in the dyes, no parameter line holds one |
| Writer.CoefficientsUnbroken | inst/batch/convert_spillover_to_flowjo.py:130-136 | with no line break in the dyes and the row's coefficient texts, no coefficient line holds one |
| Writer.BlocksUnbroken | inst/batch/convert_spillover_to_flowjo.py:126-138 | with no line break in the dyes and the coefficient texts, no line of the blocks holds one |
| Writer.LayoutUnbroken | inst/batch/convert_spillover_to_flowjo.py:110-142 | with no line break in the name, the identifier, the dyes and the coefficient texts, no line of the file holds one |
| Writer.PhysicalLines | inst/batch/convert_spillover_to_flowjo.py:110-142 | then the file, printed line by line, splits at its line breaks into exactly the modelled lines, `n * n + 3 * n + 7` of them |
| Writer.CoefficientsAgree | inst/batch/convert_spillover_to_flowjo.py:130-136 | rows that agree on the first `k` dyes give the same first `k` coefficient lines |
| Writer.CoefficientsPrefix | inst/batch/convert_spillover_to_flowjo.py:130-136 | the first `m` coefficient lines are those of the first `m` dyes |
| Writer.BlocksAgree | inst/batch/convert_spillover_to_flowjo.py:126-138 | a matrix that extends another prints the same complete blocks |
| Writer.BlocksPrefix | inst/batch/convert_spillover_to_flowjo.py:126-138 | the first `m` blocks open the list of `k` blocks |
| Writer.BlockOpening | inst/batch/convert_spillover_to_flowjo.py:127-136 | the first `1 + j` lines of a block are its header and its first `j` coefficient lines |
| Writer.BlocksThrough | inst/batch/convert_spillover_to_flowjo.py:126-138 | the first `i + 1` blocks open the list of all blocks |
| Writer.OpeningAgrees | inst/batch/convert_spillover_to_flowjo.py:126-136 | a matrix that extends another prints the same lines up to the failing lookup |
| Writer.OpeningIsPrefix | inst/batch/convert_spillover_to_flowjo.py:126-136 | the blocks before block `i` and the first `1 + j` lines of block `i` are where the blocks start |
| Writer.OpeningOfExtension | inst/batch/convert_spillover_to_flowjo.py:126-136 | the lines printed from a matrix up to coefficient line `j` of block `i` start the blocks of any complete extending matrix |
| Writer.LayoutThrough | inst/batch/convert_spillover_to_flowjo.py:110-138 | the layout up to line `k` of the blocks is the lines before the blocks and those `k` lines |
| Writer.OpeningLayout | inst/batch/convert_spillover_to_flowjo.py:110-136 | the lines printed up to coefficient line `j` of block `i` start the layout of any complete extending matrix |
| Writer.PartialRender | inst/batch/convert_spillover_to_flowjo.py:110-136 | defined as the text of each line printed before the failing lookup; characterised by WriteFlowJo, which proves the prints equal to it, and by PartialIsPrefix |
| Writer.PartialLayoutPrefix | inst/batch/convert_spillover_to_flowjo.py:110-136 | the layout of the partial file is the layout of any complete extending matrix cut before the failing lookup |
| Writer.PartialIsPrefix | inst/batch/convert_spillover_to_flowjo.py:110-136 | the partial file is the file of any complete extending matrix, cut just before the coefficient line of the first missing entry |
| Convert.ExitCode | inst/batch/convert_spillover_to_flowjo.py:47-135 | exit status 0 exactly when the file is written, 2 for usage or wrong dyes (`sys.exit(2)` at lines 49 and 81), 1 for the uncaught `KeyError` of a failed lookup |
| Convert.Diagnostic | inst/batch/convert_spillover_to_flowjo.py:43-49 | the usage message, or the wrong-dyes message ending in the input file name; nothing of the script's own on a failed lookup, whose traceback is not modelled |
| Convert.Conversion | inst/batch/convert_spillover_to_flowjo.py:47-142 | defined as the script runs; characterised by Convert, which follows the script step by step, and by WrittenIff, WrongDyesIff, KeyErrorLines and KeyErrorPrefix |
| Convert.Convert | inst/batch/convert_spillover_to_flowjo.py:47-142 | the script ends as `Conversion` says: usage error, wrong dyes, failed lookup with the partial file, or the file `Render` gives |
| Convert.MatchedRowsPresent | inst/batch/convert_spillover_to_flowjo.py:77-81 | once the dye check passes, every header dye labels a row, so `spillover[d]` never fails |
| Convert.WrittenIff | inst/batch/convert_spillover_to_flowjo.py:60-81 | the file is written exactly when the header names each dye once, the labels are the dyes, and no row that counts is short |
| Convert.WrongDyesIff | inst/batch/convert_spillover_to_flowjo.py:77-81 | the check rejects the file exactly when the dyes repeat or the labels differ from them |
| Convert.WrittenLength | inst/batch/convert_spillover_to_flowjo.py:110-142 | a written file has `n * n + 3 * n + 7` lines |
| Convert.WrittenPhysicalLines | inst/batch/convert_spillover_to_flowjo.py:110-142 | a written file whose matrix name, dyes and coefficient texts hold no line break has exactly `n * n + 3 * n + 7` physical lines, the modelled ones |
| Convert.EmptyInput | inst/batch/convert_spillover_to_flowjo.py:60-81 | an empty input file passes the check and gives the seven-line empty matrix |
| Convert.StrayLabel | inst/batch/convert_spillover_to_flowjo.py:77-81 | a row label that is not a header dye stops the script with status 2 |
| Convert.ShortRow | inst/batch/convert_spillover_to_flowjo.py:135 | a short row passes the check, and its lookup fails with status 1 |
| Convert.KeyErrorLines | inst/batch/convert_spillover_to_flowjo.py:126-136 | with matching labels and a short row, the script fails leaving the partial file |
| Convert.KeyErrorPrefix | inst/batch/convert_spillover_to_flowjo.py:108-136 | the partial file is a proper start of the file any complete matrix holding the entries read would give |
| Convert.TableEntries | inst/batch/convert_spillover_to_flowjo.py:72-75 | each row line of a square table reads back as its dye and its cells |
| Convert.TableRows | inst/batch/convert_spillover_to_flowjo.py:75 | the matrix of a square table has the dyes as rows, with `cells[i][j]` under row `dyes[i]`, column `dyes[j]` |
| Convert.ParseTable | inst/batch/convert_spillover_to_flowjo.py:60-75 | reading a square table's file gives its dyes in order and the matrix of its rows |
| Convert.TableMatrixSound | inst/batch/convert_spillover_to_flowjo.py:77-81 | a square table passes the dye check and every lookup finds its cell |
| Convert.SquareTableWritten | inst/batch/convert_spillover_to_flowjo.py:60-142 | the file of a square table is converted into the rendering of its matrix |
| Convert.SquareTableConverted | inst/batch/convert_spillover_to_flowjo.py:130-136 | end to end: in the converted file, coefficient line `j` of block `i` carries cell `j` of row `i`, verbatim |

## Left out

- File input and output are not modelled. The input file is a parameter: the lines that iterating the open file yields, line breaks included. The output file is the sequence of printed lines, without their line breaks. Opening and closing the files, and failures to do so, are not modelled.
- `uuid.uuid4()` is random, so the identifier is a parameter.
- `sys.argv` is a parameter. `sys.exit` and the uncaught `KeyError` become an `Outcome` that carries the exit status and the message on standard error.
- On a failed lookup, the file is taken to hold every line printed before the exception. The script never closes it on that path, so this relies on the interpreter flushing and closing open files at exit. The Python traceback text is not modelled.
- The dictionary's key order is not modelled. `KeyList` returns the labels in an order it chooses, and the dye check is proved to have the same result for every order.
- The sort is insertion sort on code-point order. Python's `sorted` gives the same list, because a sorted permutation is unique.
- Output well-formedness and XML escaping are not modelled. Values are spliced in as they are.
- FlowJo.MatrixLineText, Writer.RenderMatrixHeader: their contract needs a matrix name free of `"` and `=`. For other names the second splice can land inside the name. That case is described only by the general splice lemmas.
- FlowJo.CoefficientLineText, Writer.RenderCoefficient, Convert.SquareTableConverted: their contract needs the column dye free of `"` and `=`, for the same reason.
- Coefficients are never parsed as numbers, so none of their numeric meaning is modelled.
- PyStr.RStrip: the contract does not say that only white space is removed. The definition removes nothing else.
- `Convert.Square`, `Convert.Table` and `Convert.TableFile` describe inputs, not the script: a square table of dyes and cells, its row lines, and its whole CSV file. They are one well-formed family of inputs for the end-to-end lemmas and are not a restriction on `Conversion`, which is defined for every input.
- Writer.RenderLength, Writer.LayoutLength, Convert.WrittenLength: they count printed lines. A matrix name holding a line break prints as more than one physical line, and so would a dye or a coefficient text holding one. Writer.PhysicalLines and Convert.WrittenPhysicalLines give the physical count when none does.
