/** Writing the FlowJo file: the main header, the matrix header, one parameter line per dye,
    one spillover block per dye with one coefficient line per dye, and the closing lines.
    The file is the sequence of its lines; each `print` adds its text and a line break, so a
    printed template is one line, except the main header, which holds a line break itself.
    The order of the lines is given by a layout of line descriptors; `Text` turns a descriptor
    into the line the script prints for it. */
module Writer {
  import opened Lists
  import opened PyStr
  import opened Splice
  import opened Sanitize
  import opened SpilloverCsv
  import opened DyeCheck
  import opened FlowJo

  /** What a line of the file shows. */
  datatype Line =
    | Fixed(text: string)                           // a template printed as it stands
    | MatrixOpen(name: string, id: string)          // the matrix header, name and identifier filled in
    | ParameterOf(dye: string)                      // the parameter line of a dye
    | SpilloverOf(dye: string)                      // the opening line of the block of a dye
    | CoefficientOf(column: string, value: string)  // a coefficient line

  /** The text the script prints for a line. */
  function Text(l: Line): string
  {
    match l
    case Fixed(t) => t
    case MatrixOpen(name, id) => MatrixLine(name, id)
    case ParameterOf(d) => ParameterLine(d)
    case SpilloverOf(d) => SpilloverLine(d)
    case CoefficientOf(d2, value) => CoefficientLine(d2, value)
  }

  /** The row holds an entry for every dye. */
  predicate Covers(dyes: seq<string>, row: Row)
  {
    forall j :: 0 <= j < |dyes| ==> dyes[j] in row
  }

  /** The row holds an entry for each of the first `k` dyes. */
  predicate CoversFirst(dyes: seq<string>, row: Row, k: nat)
  {
    k <= |dyes| && forall j :: 0 <= j < k ==> dyes[j] in row
  }

  lemma CoversFirstStep(dyes: seq<string>, row: Row, j: nat)
    requires CoversFirst(dyes, row, j) && j < |dyes| && dyes[j] in row
    ensures CoversFirst(dyes, row, j + 1)
  {
  }

  /** Every header dye labels a row, as the dye check guarantees. */
  predicate RowsPresent(dyes: seq<string>, spillover: Matrix)
  {
    forall i :: 0 <= i < |dyes| ==> dyes[i] in spillover
  }

  /** The rows of the first `k` dyes are present and hold an entry for every dye. */
  predicate CompleteFirst(dyes: seq<string>, spillover: Matrix, k: nat)
  {
    k <= |dyes| && forall r :: 0 <= r < k ==> dyes[r] in spillover && Covers(dyes, spillover[dyes[r]])
  }

  /** Matrix `full` holds every entry of `spillover`, with the same text. */
  predicate Extends(full: Matrix, spillover: Matrix)
  {
    forall d :: d in spillover ==>
      d in full && forall c :: c in spillover[d] ==> c in full[d] && full[d][c] == spillover[d][c]
  }

  /** The lines before the parameter lines: the two lines of the main header, the filled-in
      matrix header and the parameter header. */
  function Prologue(name: string, id: string): seq<Line>
  {
    [Fixed(XmlDeclaration), Fixed(GatingOpen), MatrixOpen(name, id), Fixed(ParameterHeader)]
  }

  /** The parameter lines of the first `k` dyes, in header order. */
  function Parameters(dyes: seq<string>, k: nat): (r: seq<Line>)
    requires k <= |dyes|
    ensures |r| == k
  {
    if k == 0 then [] else Parameters(dyes, k - 1) + [ParameterOf(dyes[k - 1])]
  }

  /** The coefficient lines of a row for the first `k` column dyes, in header order. */
  function Coefficients(dyes: seq<string>, row: Row, k: nat): (r: seq<Line>)
    requires CoversFirst(dyes, row, k)
    ensures |r| == k
  {
    if k == 0 then [] else Coefficients(dyes, row, k - 1) + [CoefficientOf(dyes[k - 1], row[dyes[k - 1]])]
  }

  /** The spillover block of dye `d`. */
  function Block(d: string, dyes: seq<string>, row: Row): (r: seq<Line>)
    requires Covers(dyes, row)
    ensures |r| == |dyes| + 2
  {
    [SpilloverOf(d)] + Coefficients(dyes, row, |dyes|) + [Fixed(CoefficientFooter)]
  }

  /** The spillover blocks of the first `k` dyes, in header order. */
  function Blocks(dyes: seq<string>, spillover: Matrix, k: nat): seq<Line>
    requires CompleteFirst(dyes, spillover, k)
  {
    if k == 0 then [] else Blocks(dyes, spillover, k - 1) + Block(dyes[k - 1], dyes, spillover[dyes[k - 1]])
  }

  /** The layout of the whole file for a matrix whose rows cover every header dye. */
  function Layout(name: string, id: string, dyes: seq<string>, spillover: Matrix): seq<Line>
    requires Complete(dyes, spillover)
  {
    Prologue(name, id) + Parameters(dyes, |dyes|) + [Fixed(ParameterFooter)] + Blocks(dyes, spillover, |dyes|)
    + [Fixed(MatrixFooter), Fixed(MainFooter)]
  }

  /** The lines of the FlowJo file. */
  function Render(name: string, id: string, dyes: seq<string>, spillover: Matrix): seq<string>
    requires Complete(dyes, spillover)
  {
    Map(Text, Layout(name, id, dyes, spillover))
  }

  /** The position of the first dye the row lacks: the lookup `spillover[d][d2]` that fails. */
  function FirstMissing(dyes: seq<string>, row: Row): (j: nat)
    requires !Covers(dyes, row)
    ensures j < |dyes| && dyes[j] !in row && CoversFirst(dyes, row, j)
  {
    FirstMissingFrom(dyes, row, 0)
  }

  function FirstMissingFrom(dyes: seq<string>, row: Row, k: nat): (j: nat)
    requires !Covers(dyes, row) && CoversFirst(dyes, row, k)
    ensures k <= j < |dyes| && dyes[j] !in row && CoversFirst(dyes, row, j)
    decreases |dyes| - k
  {
    if dyes[k] !in row then k else FirstMissingFrom(dyes, row, k + 1)
  }

  /** The position of the first dye whose row lacks an entry. */
  function FirstShortRow(dyes: seq<string>, spillover: Matrix): (i: nat)
    requires RowsPresent(dyes, spillover) && !Complete(dyes, spillover)
    ensures i < |dyes| && !Covers(dyes, spillover[dyes[i]]) && CompleteFirst(dyes, spillover, i)
  {
    FirstShortRowFrom(dyes, spillover, 0)
  }

  function FirstShortRowFrom(dyes: seq<string>, spillover: Matrix, k: nat): (i: nat)
    requires RowsPresent(dyes, spillover) && !Complete(dyes, spillover) && CompleteFirst(dyes, spillover, k)
    ensures k <= i < |dyes| && !Covers(dyes, spillover[dyes[i]]) && CompleteFirst(dyes, spillover, i)
    decreases |dyes| - k
  {
    if !Covers(dyes, spillover[dyes[k]]) then k else FirstShortRowFrom(dyes, spillover, k + 1)
  }

  /** The blocks printed before the first failing lookup: the complete blocks, then the header
      and the coefficient lines of the block whose row is short, up to the missing entry. */
  function PartialBlocks(dyes: seq<string>, spillover: Matrix): seq<Line>
    requires RowsPresent(dyes, spillover) && !Complete(dyes, spillover)
  {
    var i := FirstShortRow(dyes, spillover);
    Opening(dyes, spillover, i, FirstMissing(dyes, spillover[dyes[i]]))
  }

  /** The blocks of the first `i` dyes, then the header and the first `j` coefficient lines of
      the block of dye `i`. */
  function Opening(dyes: seq<string>, spillover: Matrix, i: nat, j: nat): seq<Line>
    requires CompleteFirst(dyes, spillover, i) && i < |dyes| && dyes[i] in spillover
    requires CoversFirst(dyes, spillover[dyes[i]], j)
  {
    Blocks(dyes, spillover, i) + [SpilloverOf(dyes[i])] + Coefficients(dyes, spillover[dyes[i]], j)
  }

  /** The layout of what the script has printed when a lookup fails. */
  function PartialLayout(name: string, id: string, dyes: seq<string>, spillover: Matrix): seq<Line>
    requires RowsPresent(dyes, spillover) && !Complete(dyes, spillover)
  {
    Prologue(name, id) + Parameters(dyes, |dyes|) + [Fixed(ParameterFooter)] + PartialBlocks(dyes, spillover)
  }

  /** The lines of the file the script leaves behind when a lookup fails. */
  function PartialRender(name: string, id: string, dyes: seq<string>, spillover: Matrix): seq<string>
    requires RowsPresent(dyes, spillover) && !Complete(dyes, spillover)
  {
    Map(Text, PartialLayout(name, id, dyes, spillover))
  }

  /** A missing entry after entries for all earlier dyes is the first missing one. */
  lemma FirstMissingIs(dyes: seq<string>, row: Row, j: nat)
    requires CoversFirst(dyes, row, j) && j < |dyes| && dyes[j] !in row
    ensures !Covers(dyes, row) && FirstMissing(dyes, row) == j
  {
  }

  /** A short row after complete rows for all earlier dyes is the first short one. */
  lemma FirstShortRowIs(dyes: seq<string>, spillover: Matrix, i: nat)
    requires RowsPresent(dyes, spillover) && CompleteFirst(dyes, spillover, i) && i < |dyes|
    requires !Covers(dyes, spillover[dyes[i]])
    ensures !Complete(dyes, spillover) && FirstShortRow(dyes, spillover) == i
  {
  }

  /** Where the block of the `i`-th of `n` dyes starts. */
  function BlockStart(n: nat, i: nat): nat
  {
    4 + n + 1 + i * (n + 2)
  }

  /** The parameter loop: one line per dye, in header order. */
  method WriteParameters(dyes: seq<string>) returns (out: seq<string>)
    ensures out == Map(Text, Parameters(dyes, |dyes|))
  {
    out := [];
    for i := 0 to |dyes|
      invariant out == Map(Text, Parameters(dyes, i))
    {
      var line := SubstituteValue(ParameterBody, "data-type:name", SanitizeDye(dyes[i]));
      MapSnoc(Text, Parameters(dyes, i), ParameterOf(dyes[i]), line);
      out := out + [line];
    }
  }

  /** One pass of the outer block loop: the block header, the inner loop over the column dyes,
      the block footer. */
  method WriteBlock(d: string, dyes: seq<string>, row: Row) returns (out: seq<string>, covered: bool)
    ensures covered == Covers(dyes, row)
    ensures covered ==> out == Map(Text, Block(d, dyes, row))
    ensures !covered ==> out == Map(Text, [SpilloverOf(d)] + Coefficients(dyes, row, FirstMissing(dyes, row)))
  {
    var header := SubstituteValue(CoefficientHeader, "data-type:parameter", SanitizeDye(d));
    MapSnoc(Text, [], SpilloverOf(d), header);
    out := [header];
    assert [SpilloverOf(d)] + Coefficients(dyes, row, 0) == [] + [SpilloverOf(d)];
    for j := 0 to |dyes|
      invariant CoversFirst(dyes, row, j)
      invariant out == Map(Text, [SpilloverOf(d)] + Coefficients(dyes, row, j))
    {
      var coefficientBody := CoefficientBody;
      coefficientBody := SubstituteValue(coefficientBody, "data-type:parameter", SanitizeDye(dyes[j]));
      if dyes[j] !in row {
        // `spillover[d][d2]` raises KeyError: nothing more is printed
        FirstMissingIs(dyes, row, j);
        return out, false;
      }
      CoversFirstStep(dyes, row, j);
      coefficientBody := SubstituteValue(coefficientBody, "transforms:value", row[dyes[j]]);
      var x := CoefficientOf(dyes[j], row[dyes[j]]);
      MapSnoc(Text, [SpilloverOf(d)] + Coefficients(dyes, row, j), x, coefficientBody);
      AppendAssoc([SpilloverOf(d)], Coefficients(dyes, row, j), [x]);
      out := out + [coefficientBody];
    }
    MapSnoc(Text, [SpilloverOf(d)] + Coefficients(dyes, row, |dyes|), Fixed(CoefficientFooter), CoefficientFooter);
    out := out + [CoefficientFooter];
    covered := true;
  }

  /** The outer block loop: one block per dye, in header order, until a lookup fails. */
  method WriteBlocks(dyes: seq<string>, spillover: Matrix) returns (out: seq<string>, complete: bool)
    requires RowsPresent(dyes, spillover)
    ensures complete == Complete(dyes, spillover)
    ensures complete ==> out == Map(Text, Blocks(dyes, spillover, |dyes|))
    ensures !complete ==> out == Map(Text, PartialBlocks(dyes, spillover))
  {
    out := [];
    for i := 0 to |dyes|
      invariant CompleteFirst(dyes, spillover, i)
      invariant out == Map(Text, Blocks(dyes, spillover, i))
    {
      var row := spillover[dyes[i]];
      var block, covered := WriteBlock(dyes[i], dyes, row);
      if !covered {
        FirstShortRowIs(dyes, spillover, i);
        var started := [SpilloverOf(dyes[i])] + Coefficients(dyes, row, FirstMissing(dyes, row));
        MapAppend(Text, Blocks(dyes, spillover, i), started);
        AppendAssoc(Blocks(dyes, spillover, i), [SpilloverOf(dyes[i])], Coefficients(dyes, row, FirstMissing(dyes, row)));
        out := out + block;
        return out, false;
      }
      MapAppend(Text, Blocks(dyes, spillover, i), Block(dyes[i], dyes, row));
      out := out + block;
    }
    complete := true;
  }

  /** The main header, printed as one text, shows as its two lines. */
  lemma MainHeaderShown()
    ensures Split(MainHeader, '\n') == Map(Text, [Fixed(XmlDeclaration), Fixed(GatingOpen)])
  {
    MainHeaderLines();
    MapSnoc(Text, [], Fixed(XmlDeclaration), XmlDeclaration);
    MapSnoc(Text, [Fixed(XmlDeclaration)], Fixed(GatingOpen), GatingOpen);
    assert [] + [Fixed(XmlDeclaration)] == [Fixed(XmlDeclaration)];
  }

  /** The main header and the matrix header with its name and identifier spliced in, then the
      parameter header. */
  method WritePrologue(name: string, id: string) returns (out: seq<string>)
    ensures out == Map(Text, Prologue(name, id))
  {
    out := Split(MainHeader, '\n');
    MainHeaderShown();
    var matrixHeader := MatrixHeader;
    matrixHeader := SubstituteValue(matrixHeader, "name", name);
    matrixHeader := SubstituteValue(matrixHeader, "transforms:id", id);
    MapSnoc(Text, [Fixed(XmlDeclaration), Fixed(GatingOpen)], MatrixOpen(name, id), matrixHeader);
    out := out + [matrixHeader];
    MapSnoc(Text, [Fixed(XmlDeclaration), Fixed(GatingOpen), MatrixOpen(name, id)], Fixed(ParameterHeader),
            ParameterHeader);
    out := out + [ParameterHeader];
  }

  /** The writing part of the script, line by line: the file it writes is `Render`, or, when a
      lookup fails, `PartialRender`. */
  method WriteFlowJo(name: string, id: string, dyes: seq<string>, spillover: Matrix)
    returns (out: seq<string>, complete: bool)
    requires RowsPresent(dyes, spillover)
    ensures complete == Complete(dyes, spillover)
    ensures complete ==> out == Render(name, id, dyes, spillover)
    ensures !complete ==> out == PartialRender(name, id, dyes, spillover)
  {
    out := WritePrologue(name, id);
    var parameters := WriteParameters(dyes);
    MapAppend(Text, Prologue(name, id), Parameters(dyes, |dyes|));
    out := out + parameters;
    var front := Prologue(name, id) + Parameters(dyes, |dyes|);
    MapSnoc(Text, front, Fixed(ParameterFooter), ParameterFooter);
    out := out + [ParameterFooter];
    var blocks;
    blocks, complete := WriteBlocks(dyes, spillover);
    if !complete {
      MapAppend(Text, front + [Fixed(ParameterFooter)], PartialBlocks(dyes, spillover));
      out := out + blocks;
      return;
    }
    MapAppend(Text, front + [Fixed(ParameterFooter)], Blocks(dyes, spillover, |dyes|));
    out := out + blocks;
    MapAppend(Text, front + [Fixed(ParameterFooter)] + Blocks(dyes, spillover, |dyes|),
              [Fixed(MatrixFooter), Fixed(MainFooter)]);
    assert Map(Text, [Fixed(MatrixFooter), Fixed(MainFooter)]) == [MatrixFooter, MainFooter];
    out := out + [MatrixFooter, MainFooter];
  }

  /** Each block takes the block header, one line per dye and the block footer. */
  lemma {:induction false} BlocksLength(dyes: seq<string>, spillover: Matrix, k: nat)
    requires CompleteFirst(dyes, spillover, k)
    ensures |Blocks(dyes, spillover, k)| == k * (|dyes| + 2)
  {
    if k > 0 {
      BlocksLength(dyes, spillover, k - 1);
      assert k * (|dyes| + 2) == (k - 1) * (|dyes| + 2) + (|dyes| + 2);
    }
  }

  /** The parameter line at position `i` is the one of the `i`-th dye. */
  lemma {:induction false} ParametersAt(dyes: seq<string>, k: nat, i: nat)
    requires i < k <= |dyes|
    ensures Parameters(dyes, k)[i] == ParameterOf(dyes[i])
  {
    if i < k - 1 {
      ParametersAt(dyes, k - 1, i);
    }
  }

  /** The coefficient line at position `j` is the one of the `j`-th column dye, with the row's
      entry for it. */
  lemma {:induction false} CoefficientsAt(dyes: seq<string>, row: Row, k: nat, j: nat)
    requires Covers(dyes, row) && j < k <= |dyes|
    ensures Coefficients(dyes, row, k)[j] == CoefficientOf(dyes[j], row[dyes[j]])
  {
    if j < k - 1 {
      CoefficientsAt(dyes, row, k - 1, j);
    }
  }

  /** Offsets inside the `i`-th of `k` runs of width `w`. */
  lemma RunOffset(i: nat, k: nat, w: nat, m: nat)
    requires i < k && m < w
    ensures k * w == (k - 1) * w + w
    ensures i < k - 1 ==> i * w + m < (k - 1) * w
    ensures i == k - 1 ==> i * w + m == (k - 1) * w + m
  {
    if i < k - 1 {
      assert (i + 1) * w <= (k - 1) * w;
    }
  }

  /** Line `m` of the `i`-th block sits at `i * (n + 2) + m` among the blocks. */
  lemma {:induction false} BlocksAt(dyes: seq<string>, spillover: Matrix, k: nat, i: nat, m: nat)
    requires Complete(dyes, spillover) && i < k <= |dyes| && m < |dyes| + 2
    ensures i * (|dyes| + 2) + m < |Blocks(dyes, spillover, k)|
    ensures Blocks(dyes, spillover, k)[i * (|dyes| + 2) + m] == Block(dyes[i], dyes, spillover[dyes[i]])[m]
  {
    BlocksLength(dyes, spillover, k - 1);
    RunOffset(i, k, |dyes| + 2, m);
    if i < k - 1 {
      BlocksAt(dyes, spillover, k - 1, i, m);
    }
  }

  /** The layout has n * n + 3 * n + 7 lines for n dyes: seven fixed lines, n parameter lines
      and n blocks of n + 2 lines. */
  lemma LayoutLength(name: string, id: string, dyes: seq<string>, spillover: Matrix)
    requires Complete(dyes, spillover)
    ensures |Layout(name, id, dyes, spillover)| == |dyes| * |dyes| + 3 * |dyes| + 7
  {
    BlocksLength(dyes, spillover, |dyes|);
    assert |dyes| * (|dyes| + 2) == |dyes| * |dyes| + 2 * |dyes|;
  }

  /** Line 4 + i of the layout is the parameter line of the `i`-th header dye. */
  lemma LayoutParameter(name: string, id: string, dyes: seq<string>, spillover: Matrix, i: nat)
    requires Complete(dyes, spillover) && i < |dyes|
    ensures 4 + i < |Layout(name, id, dyes, spillover)|
    ensures Layout(name, id, dyes, spillover)[4 + i] == ParameterOf(dyes[i])
  {
    ParametersAt(dyes, |dyes|, i);
  }

  /** The layout line of the `i`-th block at offset `m`. */
  lemma LayoutBlockLine(name: string, id: string, dyes: seq<string>, spillover: Matrix, i: nat, m: nat)
    requires Complete(dyes, spillover) && i < |dyes| && m < |dyes| + 2
    ensures BlockStart(|dyes|, i) + m < |Layout(name, id, dyes, spillover)|
    ensures Layout(name, id, dyes, spillover)[BlockStart(|dyes|, i) + m]
            == Block(dyes[i], dyes, spillover[dyes[i]])[m]
  {
    var n := |dyes|;
    var front := Prologue(name, id) + Parameters(dyes, n) + [Fixed(ParameterFooter)];
    BlocksAt(dyes, spillover, n, i, m);
    Within(front, Blocks(dyes, spillover, n), [Fixed(MatrixFooter), Fixed(MainFooter)], i * (n + 2) + m);
  }

  /** Line `j` of the `i`-th block is the coefficient line of column `dyes[j]` with the entry of
      row `dyes[i]` for it. */
  lemma LayoutCoefficient(name: string, id: string, dyes: seq<string>, spillover: Matrix, i: nat, j: nat)
    requires Complete(dyes, spillover) && i < |dyes| && j < |dyes|
    ensures BlockStart(|dyes|, i) + 1 + j < |Layout(name, id, dyes, spillover)|
    ensures Layout(name, id, dyes, spillover)[BlockStart(|dyes|, i) + 1 + j]
            == CoefficientOf(dyes[j], spillover[dyes[i]][dyes[j]])
  {
    var row := spillover[dyes[i]];
    LayoutBlockLine(name, id, dyes, spillover, i, 1 + j);
    CoefficientsAt(dyes, row, |dyes|, j);
  }

  /** The fixed lines of the layout. */
  lemma LayoutFrame(name: string, id: string, dyes: seq<string>, spillover: Matrix)
    requires Complete(dyes, spillover)
    ensures var layout := Layout(name, id, dyes, spillover);
            |layout| == |dyes| * |dyes| + 3 * |dyes| + 7
            && layout[..4] == Prologue(name, id) && layout[4 + |dyes|] == Fixed(ParameterFooter)
            && layout[|layout| - 2] == Fixed(MatrixFooter) && layout[|layout| - 1] == Fixed(MainFooter)
  {
    var n := |dyes|;
    var front := Prologue(name, id) + Parameters(dyes, n);
    var back := Blocks(dyes, spillover, n) + [Fixed(MatrixFooter), Fixed(MainFooter)];
    LayoutLength(name, id, dyes, spillover);
    Within(front, [Fixed(ParameterFooter)], Blocks(dyes, spillover, n) + [Fixed(MatrixFooter), Fixed(MainFooter)], 0);
    assert Layout(name, id, dyes, spillover) == front + [Fixed(ParameterFooter)] + back;
  }

  /** The file has n * n + 3 * n + 7 lines for n dyes. */
  lemma RenderLength(name: string, id: string, dyes: seq<string>, spillover: Matrix)
    requires Complete(dyes, spillover)
    ensures |Render(name, id, dyes, spillover)| == |dyes| * |dyes| + 3 * |dyes| + 7
  {
    LayoutLength(name, id, dyes, spillover);
  }

  /** The fixed lines: the main header's two lines, the matrix header, the parameter header
      and footer, and the two closing lines. */
  lemma RenderFrame(name: string, id: string, dyes: seq<string>, spillover: Matrix)
    requires Complete(dyes, spillover)
    ensures var out := Render(name, id, dyes, spillover);
            |out| == |dyes| * |dyes| + 3 * |dyes| + 7
            && out[0] == XmlDeclaration && out[1] == GatingOpen && out[2] == MatrixLine(name, id)
            && out[3] == ParameterHeader && out[4 + |dyes|] == ParameterFooter
            && out[|out| - 2] == MatrixFooter && out[|out| - 1] == MainFooter
  {
    var layout := Layout(name, id, dyes, spillover);
    var n := |dyes|;
    LayoutFrame(name, id, dyes, spillover);
    assert layout[0] == Fixed(XmlDeclaration) && layout[1] == Fixed(GatingOpen);
    assert layout[2] == MatrixOpen(name, id) && layout[3] == Fixed(ParameterHeader);
    MapAt(Text, layout, 0, Fixed(XmlDeclaration));
    MapAt(Text, layout, 1, Fixed(GatingOpen));
    MapAt(Text, layout, 2, MatrixOpen(name, id));
    MapAt(Text, layout, 3, Fixed(ParameterHeader));
    MapAt(Text, layout, 4 + n, Fixed(ParameterFooter));
    MapAt(Text, layout, |layout| - 2, Fixed(MatrixFooter));
    MapAt(Text, layout, |layout| - 1, Fixed(MainFooter));
  }

  /** With a name free of quotes and equals signs, the matrix header carries the name and the
      identifier in their attributes and keeps the others as the template has them. */
  lemma RenderMatrixHeader(name: string, id: string, dyes: seq<string>, spillover: Matrix)
    requires Complete(dyes, spillover) && Inert(name)
    ensures |Render(name, id, dyes, spillover)| > 2
    ensures Render(name, id, dyes, spillover)[2]
            == "  <transforms:spilloverMatrix " + Filled("prefix", "Comp-") + " " + Filled("name", name) + " "
               + Filled("editable", "1") + " " + Filled("status", "FINALIZED") + " "
               + Filled("transforms:id", id) + ">"
  {
    MapAt(Text, Layout(name, id, dyes, spillover), 2, MatrixOpen(name, id));
    MatrixLineText(name, id);
  }

  /** Line 4 + i is the parameter line of the `i`-th header dye, with its sanitised name. */
  lemma RenderParameter(name: string, id: string, dyes: seq<string>, spillover: Matrix, i: nat)
    requires Complete(dyes, spillover) && i < |dyes|
    ensures 4 + i < |Render(name, id, dyes, spillover)|
    ensures Render(name, id, dyes, spillover)[4 + i]
            == "      <data-type:parameter " + Filled("data-type:name", SanitizeDye(dyes[i])) + "/>"
  {
    LayoutParameter(name, id, dyes, spillover, i);
    MapAt(Text, Layout(name, id, dyes, spillover), 4 + i, ParameterOf(dyes[i]));
    ParameterLineText(dyes[i]);
  }

  /** The `i`-th block opens with the sanitised name of the `i`-th header dye. */
  lemma RenderSpillover(name: string, id: string, dyes: seq<string>, spillover: Matrix, i: nat)
    requires Complete(dyes, spillover) && i < |dyes|
    ensures BlockStart(|dyes|, i) < |Render(name, id, dyes, spillover)|
    ensures Render(name, id, dyes, spillover)[BlockStart(|dyes|, i)]
            == "    <transforms:spillover " + Filled("data-type:parameter", SanitizeDye(dyes[i])) + ">"
  {
    LayoutBlockLine(name, id, dyes, spillover, i, 0);
    MapAt(Text, Layout(name, id, dyes, spillover), BlockStart(|dyes|, i), SpilloverOf(dyes[i]));
    SpilloverLineText(dyes[i]);
  }

  /** Line `j` of the `i`-th block carries the sanitised `j`-th header dye and, verbatim, the
      coefficient text of row `dyes[i]` and column `dyes[j]`. */
  lemma RenderCoefficient(name: string, id: string, dyes: seq<string>, spillover: Matrix, i: nat, j: nat)
    requires Complete(dyes, spillover) && i < |dyes| && j < |dyes|
    requires Inert(dyes[j])
    ensures BlockStart(|dyes|, i) + 1 + j < |Render(name, id, dyes, spillover)|
    ensures Render(name, id, dyes, spillover)[BlockStart(|dyes|, i) + 1 + j]
            == "      <transforms:coefficient " + Filled("data-type:parameter", SanitizeDye(dyes[j])) + " "
               + Filled("transforms:value", spillover[dyes[i]][dyes[j]]) + "/>"
  {
    var x := CoefficientOf(dyes[j], spillover[dyes[i]][dyes[j]]);
    LayoutCoefficient(name, id, dyes, spillover, i, j);
    MapAt(Text, Layout(name, id, dyes, spillover), BlockStart(|dyes|, i) + 1 + j, x);
    CoefficientLineText(dyes[j], spillover[dyes[i]][dyes[j]]);
  }

  /** Each block closes after its n coefficient lines. */
  lemma RenderBlockFooter(name: string, id: string, dyes: seq<string>, spillover: Matrix, i: nat)
    requires Complete(dyes, spillover) && i < |dyes|
    ensures BlockStart(|dyes|, i) + |dyes| + 1 < |Render(name, id, dyes, spillover)|
    ensures Render(name, id, dyes, spillover)[BlockStart(|dyes|, i) + |dyes| + 1] == CoefficientFooter
  {
    LayoutBlockLine(name, id, dyes, spillover, i, |dyes| + 1);
    MapAt(Text, Layout(name, id, dyes, spillover), BlockStart(|dyes|, i) + |dyes| + 1, Fixed(CoefficientFooter));
  }

  /** Rows that agree on the first `k` dyes give the same first `k` coefficient lines. */
  lemma {:induction false} CoefficientsAgree(dyes: seq<string>, row: Row, fullRow: Row, k: nat)
    requires CoversFirst(dyes, row, k) && Covers(dyes, fullRow)
    requires forall c :: c in row ==> c in fullRow && fullRow[c] == row[c]
    ensures Coefficients(dyes, row, k) == Coefficients(dyes, fullRow, k)
  {
    if k > 0 {
      CoefficientsAgree(dyes, row, fullRow, k - 1);
    }
  }

  /** The first `m` of `k` coefficient lines are the coefficient lines of the first `m` dyes. */
  lemma {:induction false} CoefficientsPrefix(dyes: seq<string>, row: Row, k: nat, m: nat)
    requires CoversFirst(dyes, row, k) && m <= k
    ensures Coefficients(dyes, row, k)[..m] == Coefficients(dyes, row, m)
  {
    if m < k {
      CoefficientsPrefix(dyes, row, k - 1, m);
      PrefixOfAppend(Coefficients(dyes, row, k - 1), [CoefficientOf(dyes[k - 1], row[dyes[k - 1]])], m);
    } else {
      assert Coefficients(dyes, row, k)[..m] == Coefficients(dyes, row, k);
    }
  }

  /** A matrix that extends another prints the same complete blocks. */
  lemma {:induction false} BlocksAgree(dyes: seq<string>, spillover: Matrix, full: Matrix, k: nat)
    requires CompleteFirst(dyes, spillover, k) && Complete(dyes, full) && Extends(full, spillover)
    ensures Blocks(dyes, spillover, k) == Blocks(dyes, full, k)
  {
    if k > 0 {
      BlocksAgree(dyes, spillover, full, k - 1);
      var d := dyes[k - 1];
      CoefficientsAgree(dyes, spillover[d], full[d], |dyes|);
    }
  }

  /** The first `m` of `k` blocks open the list of `k` blocks. */
  lemma {:induction false} BlocksPrefix(dyes: seq<string>, spillover: Matrix, k: nat, m: nat)
    requires CompleteFirst(dyes, spillover, k) && m <= k
    ensures |Blocks(dyes, spillover, m)| <= |Blocks(dyes, spillover, k)|
    ensures Blocks(dyes, spillover, k)[..|Blocks(dyes, spillover, m)|] == Blocks(dyes, spillover, m)
  {
    if m < k {
      BlocksPrefix(dyes, spillover, k - 1, m);
      var d := dyes[k - 1];
      PrefixOfAppend(Blocks(dyes, spillover, k - 1), Block(d, dyes, spillover[d]), |Blocks(dyes, spillover, m)|);
    } else {
      assert Blocks(dyes, spillover, k)[..|Blocks(dyes, spillover, k)|] == Blocks(dyes, spillover, k);
    }
  }

  /** The first `1 + j` lines of a block: its header and its first `j` coefficient lines. */
  lemma BlockOpening(d: string, dyes: seq<string>, row: Row, j: nat)
    requires Covers(dyes, row) && j <= |dyes|
    ensures 1 + j <= |Block(d, dyes, row)|
    ensures Block(d, dyes, row)[..1 + j] == [SpilloverOf(d)] + Coefficients(dyes, row, j)
  {
    CoefficientsPrefix(dyes, row, |dyes|, j);
    PrefixWithin([SpilloverOf(d)], Coefficients(dyes, row, |dyes|), [Fixed(CoefficientFooter)], j);
  }

  /** The first `i + 1` blocks open the list of all blocks. */
  lemma BlocksThrough(dyes: seq<string>, spillover: Matrix, i: nat)
    requires Complete(dyes, spillover) && i < |dyes|
    ensures var leading := Blocks(dyes, spillover, i) + Block(dyes[i], dyes, spillover[dyes[i]]);
            |leading| <= |Blocks(dyes, spillover, |dyes|)| && Blocks(dyes, spillover, |dyes|)[..|leading|] == leading
  {
    BlocksPrefix(dyes, spillover, |dyes|, i + 1);
  }

  /** A matrix that extends another opens its blocks with the same lines. */
  lemma OpeningAgrees(dyes: seq<string>, spillover: Matrix, full: Matrix, i: nat, j: nat)
    requires CompleteFirst(dyes, spillover, i) && i < |dyes| && dyes[i] in spillover
    requires CoversFirst(dyes, spillover[dyes[i]], j)
    requires Complete(dyes, full) && Extends(full, spillover)
    ensures Opening(dyes, spillover, i, j) == Opening(dyes, full, i, j)
  {
    BlocksAgree(dyes, spillover, full, i);
    CoefficientsAgree(dyes, spillover[dyes[i]], full[dyes[i]], j);
  }

  /** The opening up to coefficient line `j` of block `i` is where the blocks of a complete
      matrix start. */
  lemma OpeningIsPrefix(dyes: seq<string>, spillover: Matrix, i: nat, j: nat)
    requires Complete(dyes, spillover) && i < |dyes| && j <= |dyes|
    ensures i * (|dyes| + 2) + 1 + j <= |Blocks(dyes, spillover, |dyes|)|
    ensures Opening(dyes, spillover, i, j) == Blocks(dyes, spillover, |dyes|)[..i * (|dyes| + 2) + 1 + j]
  {
    var d := dyes[i];
    var before := Blocks(dyes, spillover, i);
    var block := Block(d, dyes, spillover[d]);
    BlocksLength(dyes, spillover, i);
    BlocksThrough(dyes, spillover, i);
    PrefixThrough(Blocks(dyes, spillover, |dyes|), before, block, 1 + j);
    BlockOpening(d, dyes, spillover[d], j);
    AppendAssoc(before, [SpilloverOf(d)], Coefficients(dyes, spillover[d], j));
  }

  /** The opening of a matrix that `full` extends is where the blocks of `full` start. */
  lemma OpeningOfExtension(dyes: seq<string>, spillover: Matrix, full: Matrix, i: nat, j: nat)
    requires CompleteFirst(dyes, spillover, i) && i < |dyes| && dyes[i] in spillover
    requires CoversFirst(dyes, spillover[dyes[i]], j)
    requires Complete(dyes, full) && Extends(full, spillover)
    ensures i * (|dyes| + 2) + 1 + j <= |Blocks(dyes, full, |dyes|)|
    ensures Opening(dyes, spillover, i, j) == Blocks(dyes, full, |dyes|)[..i * (|dyes| + 2) + 1 + j]
  {
    OpeningAgrees(dyes, spillover, full, i, j);
    OpeningIsPrefix(dyes, full, i, j);
  }

  /** The layout up to line `k` of the blocks: the lines before the blocks, then those `k`. */
  lemma LayoutThrough(name: string, id: string, dyes: seq<string>, spillover: Matrix, k: nat)
    requires Complete(dyes, spillover) && k <= |Blocks(dyes, spillover, |dyes|)|
    ensures 4 + |dyes| + 1 + k < |Layout(name, id, dyes, spillover)|
    ensures Layout(name, id, dyes, spillover)[..4 + |dyes| + 1 + k]
         == Prologue(name, id) + Parameters(dyes, |dyes|) + [Fixed(ParameterFooter)] + Blocks(dyes, spillover, |dyes|)[..k]
  {
    var front := Prologue(name, id) + Parameters(dyes, |dyes|) + [Fixed(ParameterFooter)];
    PrefixWithin(front, Blocks(dyes, spillover, |dyes|), [Fixed(MatrixFooter), Fixed(MainFooter)], k);
  }

  /** The lines before the blocks, then the opening up to coefficient line `j` of block `i`,
      read from a matrix that `full` extends, start the layout of `full`. */
  lemma OpeningLayout(name: string, id: string, dyes: seq<string>, spillover: Matrix, full: Matrix, i: nat, j: nat)
    requires CompleteFirst(dyes, spillover, i) && i < |dyes| && dyes[i] in spillover
    requires CoversFirst(dyes, spillover[dyes[i]], j)
    requires Complete(dyes, full) && Extends(full, spillover)
    ensures BlockStart(|dyes|, i) + 1 + j < |Layout(name, id, dyes, full)|
    ensures Prologue(name, id) + Parameters(dyes, |dyes|) + [Fixed(ParameterFooter)] + Opening(dyes, spillover, i, j)
         == Layout(name, id, dyes, full)[..BlockStart(|dyes|, i) + 1 + j]
  {
    OpeningOfExtension(dyes, spillover, full, i, j);
    LayoutThrough(name, id, dyes, full, i * (|dyes| + 2) + 1 + j);
  }

  /** The layout of the partial file opens the layout of the complete one. */
  lemma PartialLayoutPrefix(name: string, id: string, dyes: seq<string>, spillover: Matrix, full: Matrix)
    requires RowsPresent(dyes, spillover) && !Complete(dyes, spillover)
    requires Complete(dyes, full) && Extends(full, spillover)
    ensures var i := FirstShortRow(dyes, spillover);
            var j := FirstMissing(dyes, spillover[dyes[i]]);
            BlockStart(|dyes|, i) + 1 + j < |Layout(name, id, dyes, full)| &&
            PartialLayout(name, id, dyes, spillover) == Layout(name, id, dyes, full)[..BlockStart(|dyes|, i) + 1 + j]
  {
    var i := FirstShortRow(dyes, spillover);
    OpeningLayout(name, id, dyes, spillover, full, i, FirstMissing(dyes, spillover[dyes[i]]));
  }

  /** What the script has printed when a lookup fails is the start of the file it would print
      for any complete matrix that extends the one read: everything up to, and not including,
      the coefficient line of the missing entry. */
  lemma PartialIsPrefix(name: string, id: string, dyes: seq<string>, spillover: Matrix, full: Matrix)
    requires RowsPresent(dyes, spillover) && !Complete(dyes, spillover)
    requires Complete(dyes, full) && Extends(full, spillover)
    ensures var i := FirstShortRow(dyes, spillover);
            var j := FirstMissing(dyes, spillover[dyes[i]]);
            BlockStart(|dyes|, i) + 1 + j < |Render(name, id, dyes, full)| &&
            PartialRender(name, id, dyes, spillover) == Render(name, id, dyes, full)[..BlockStart(|dyes|, i) + 1 + j]
  {
    var i := FirstShortRow(dyes, spillover);
    var j := FirstMissing(dyes, spillover[dyes[i]]);
    PartialLayoutPrefix(name, id, dyes, spillover, full);
    MapPrefix(Text, Layout(name, id, dyes, full), BlockStart(|dyes|, i) + 1 + j);
  }

  /** No line of `ls` shows a line break, so each prints as one physical line. */
  predicate Unbroken(ls: seq<Line>)
  {
    forall k :: 0 <= k < |ls| ==> '\n' !in Text(ls[k])
  }

  /** No text in `words` holds a line break. */
  predicate NoBreaks(words: seq<string>)
  {
    forall i :: 0 <= i < |words| ==> '\n' !in words[i]
  }

  /** No coefficient text of the row holds a line break. */
  predicate RowNoBreaks(row: Row)
  {
    forall c :: c in row ==> '\n' !in row[c]
  }

  /** The matrix name, the identifier, the dyes and the coefficient texts hold no line break. */
  predicate BreakFree(name: string, id: string, dyes: seq<string>, spillover: Matrix)
  {
    '\n' !in name && '\n' !in id && NoBreaks(dyes) && forall d :: d in spillover ==> RowNoBreaks(spillover[d])
  }

  lemma UnbrokenAppend(a: seq<Line>, b: seq<Line>)
    ensures Unbroken(a + b) <==> Unbroken(a) && Unbroken(b)
  {
    forall k | 0 <= k < |a| ensures (a + b)[k] == a[k] { }
    forall k | 0 <= k < |b| ensures (a + b)[|a| + k] == b[k] { }
    if Unbroken(a) && Unbroken(b) {
      forall k | 0 <= k < |a + b| ensures '\n' !in Text((a + b)[k]) {
        if k >= |a| {
          assert (a + b)[|a| + (k - |a|)] == b[k - |a|];
        }
      }
    }
    if Unbroken(a + b) {
      forall k | 0 <= k < |b| ensures '\n' !in Text(b[k]) {
        assert '\n' !in Text((a + b)[|a| + k]);
      }
    }
  }

  lemma {:induction false} ParametersUnbroken(dyes: seq<string>, k: nat)
    requires NoBreaks(dyes) && k <= |dyes|
    ensures Unbroken(Parameters(dyes, k))
  {
    if k > 0 {
      ParametersUnbroken(dyes, k - 1);
      ParameterLineUnbroken(dyes[k - 1]);
      UnbrokenAppend(Parameters(dyes, k - 1), [ParameterOf(dyes[k - 1])]);
    }
  }

  lemma {:induction false} CoefficientsUnbroken(dyes: seq<string>, row: Row, k: nat)
    requires NoBreaks(dyes) && RowNoBreaks(row) && CoversFirst(dyes, row, k)
    ensures Unbroken(Coefficients(dyes, row, k))
  {
    if k > 0 {
      var last := CoefficientOf(dyes[k - 1], row[dyes[k - 1]]);
      CoefficientsUnbroken(dyes, row, k - 1);
      assert Unbroken([last]) by {
        CoefficientLineUnbroken(dyes[k - 1], row[dyes[k - 1]]);
      }
      UnbrokenAppend(Coefficients(dyes, row, k - 1), [last]);
    }
  }

  lemma {:induction false} BlocksUnbroken(name: string, id: string, dyes: seq<string>, spillover: Matrix, k: nat)
    requires BreakFree(name, id, dyes, spillover) && CompleteFirst(dyes, spillover, k)
    ensures Unbroken(Blocks(dyes, spillover, k))
  {
    if k > 0 {
      var d := dyes[k - 1];
      var row := spillover[d];
      var coefficients := Coefficients(dyes, row, |dyes|);
      BlocksUnbroken(name, id, dyes, spillover, k - 1);
      assert Unbroken([SpilloverOf(d)]) && Unbroken([Fixed(CoefficientFooter)]) by {
        SpilloverLineUnbroken(d);
        TemplatesUnbroken();
      }
      assert Unbroken(coefficients) by {
        CoefficientsUnbroken(dyes, row, |dyes|);
      }
      UnbrokenAppend([SpilloverOf(d)], coefficients);
      UnbrokenAppend([SpilloverOf(d)] + coefficients, [Fixed(CoefficientFooter)]);
      UnbrokenAppend(Blocks(dyes, spillover, k - 1), Block(d, dyes, row));
    }
  }

  /** With no line break in the name, the identifier, the dyes or the coefficient texts, no
      line of the layout shows one. */
  lemma LayoutUnbroken(name: string, id: string, dyes: seq<string>, spillover: Matrix)
    requires Complete(dyes, spillover) && BreakFree(name, id, dyes, spillover)
    ensures Unbroken(Layout(name, id, dyes, spillover))
  {
    var prologue := Prologue(name, id);
    var footer := [Fixed(ParameterFooter)];
    var closing := [Fixed(MatrixFooter), Fixed(MainFooter)];
    assert Unbroken(prologue) && Unbroken(footer) && Unbroken(closing) by {
      TemplatesUnbroken();
      MatrixLineUnbroken(name, id);
    }
    ParametersUnbroken(dyes, |dyes|);
    BlocksUnbroken(name, id, dyes, spillover, |dyes|);
    UnbrokenAppend(prologue, Parameters(dyes, |dyes|));
    UnbrokenAppend(prologue + Parameters(dyes, |dyes|), footer);
    UnbrokenAppend(prologue + Parameters(dyes, |dyes|) + footer, Blocks(dyes, spillover, |dyes|));
    UnbrokenAppend(prologue + Parameters(dyes, |dyes|) + footer + Blocks(dyes, spillover, |dyes|), closing);
  }

  /** With no line break in the name, the identifier, the dyes or the coefficient texts, the
      file printed line by line splits at its line breaks into exactly the lines of the model,
      so it has n * n + 3 * n + 7 physical lines. */
  lemma PhysicalLines(name: string, id: string, dyes: seq<string>, spillover: Matrix)
    requires Complete(dyes, spillover) && BreakFree(name, id, dyes, spillover)
    ensures |Render(name, id, dyes, spillover)| == |dyes| * |dyes| + 3 * |dyes| + 7
    ensures Split(Join(Render(name, id, dyes, spillover), '\n'), '\n') == Render(name, id, dyes, spillover)
  {
    var layout := Layout(name, id, dyes, spillover);
    RenderLength(name, id, dyes, spillover);
    LayoutUnbroken(name, id, dyes, spillover);
    forall k | 0 <= k < |layout| ensures '\n' !in Map(Text, layout)[k] {
      MapAt(Text, layout, k, layout[k]);
    }
    SplitJoin(Render(name, id, dyes, spillover), '\n');
  }
}
