/** The script as a whole: the argument count check, the read of the spillover file, the dye
    check and the write of the FlowJo file. The process's effects become an `Outcome`: the exit
    status, the message on standard error and the lines of the output file. The lines of the
    input file and the identifier the script draws with `uuid.uuid4()` are parameters. */
module Convert {
  import opened Lists
  import opened PyStr
  import opened Splice
  import opened Sanitize
  import opened SpilloverCsv
  import opened DyeCheck
  import opened Writer

  /** How a run ends. */
  datatype Outcome =
    | Usage                          // wrong number of arguments: usage message, exit status 2
    | WrongDyes(fileName: string)    // the row labels are not the header dyes: exit status 2
    | KeyError(lines: seq<string>)   // a row lacks a coefficient: uncaught `KeyError` after `lines`
                                     // were printed, exit status 1
    | Written(lines: seq<string>)    // the FlowJo file was written: exit status 0

  /** The usage message. */
  const UsageMessage: string :=
    " usage: generate_flowjo_spillover.py  " + "spillover_matrix_name  input_spillover_file.csv  "
    + "output_flowjo_file.mtx"

  /** The process's exit status. */
  function ExitCode(o: Outcome): (code: int)
    ensures code == 0 <==> o.Written?
    ensures code == 2 <==> o.Usage? || o.WrongDyes?
    ensures code == 1 <==> o.KeyError?
  {
    match o
    case Usage => 2
    case WrongDyes(_) => 2
    case KeyError(_) => 1
    case Written(_) => 0
  }

  /** What the script writes to standard error itself, before it exits with status 2. When a
      coefficient lookup fails, the interpreter prints the traceback of the uncaught `KeyError`
      on standard error; that text is not part of this model, so the message is empty. */
  function Diagnostic(o: Outcome): (message: string)
    ensures o.Usage? ==> message == UsageMessage
    ensures o.WrongDyes? ==> |message| > |o.fileName| && message[|message| - |o.fileName|..] == o.fileName
    ensures o.KeyError? || o.Written? ==> message == []
  {
    match o
    case Usage => UsageMessage
    case WrongDyes(fileName) => " generate_flowjo_spillover.py: wrong dyes in spillover file " + fileName
    case KeyError(_) => []
    case Written(_) => []
  }

  /** How the script ends for arguments `argv` (the script name first), the lines of the input
      file and the identifier drawn for the matrix. */
  function Conversion(argv: seq<string>, input: seq<string>, id: string): Outcome
  {
    if |argv| != 4 then Usage
    else
      var (dyes, spillover) := Parse(input);
      if !DyesMatch(dyes, spillover) then WrongDyes(argv[2])
      else if !Complete(dyes, spillover) then
        MatchedRowsPresent(dyes, spillover);
        KeyError(PartialRender(argv[1], id, dyes, spillover))
      else Written(Render(argv[1], id, dyes, spillover))
  }

  /** Once the dye check passes, every header dye labels a row, so only the lookup of a
      coefficient can fail. */
  lemma MatchedRowsPresent(dyes: seq<string>, spillover: Matrix)
    requires DyesMatch(dyes, spillover)
    ensures RowsPresent(dyes, spillover)
  {
    DyesMatchIff(dyes, spillover);
    forall i | 0 <= i < |dyes|
      ensures dyes[i] in spillover
    {
      assert dyes[i] in Elements(dyes);
    }
  }

  /** The script, step by step: it compares the sorted label list with the sorted dye list,
      then writes until done or until a coefficient lookup fails. */
  method Convert(argv: seq<string>, input: seq<string>, id: string) returns (o: Outcome)
    ensures o == Conversion(argv, input, id)
  {
    if |argv| != 4 {
      return Usage;
    }
    var name, fileName := argv[1], argv[2];
    var dyes, spillover := ReadSpillover(input);
    var keys := KeyList(spillover);
    SortedCheckIff(keys, dyes, spillover);
    if Sort(keys) != Sort(dyes) {
      return WrongDyes(fileName);
    }
    MatchedRowsPresent(dyes, spillover);
    var lines, complete := WriteFlowJo(name, id, dyes, spillover);
    if complete {
      o := Written(lines);
    } else {
      o := KeyError(lines);
    }
  }

  /** With the right argument count and a non-empty file, the script writes the FlowJo file
      exactly when the header names each dye once, the row labels are the header dyes, and the
      last row under each label has a cell for every dye. */
  lemma WrittenIff(argv: seq<string>, input: seq<string>, id: string)
    requires |argv| == 4 && input != []
    ensures var dyes := HeaderDyes(input[0]);
            var entries := RowEntries(input[1..]);
            Conversion(argv, input, id).Written?
            <==> Distinct(dyes) && Elements(dyes) == Rows(dyes, entries).Keys
                 && forall i :: 0 <= i < |entries| && LastEntry(entries, i) ==> |entries[i].1| >= |dyes|
  {
    var dyes := HeaderDyes(input[0]);
    var entries := RowEntries(input[1..]);
    DyesMatchIff(dyes, Rows(dyes, entries));
    if DyesMatch(dyes, Rows(dyes, entries)) {
      CompleteIff(dyes, entries);
    }
  }

  /** The dye check rejects the file exactly when the header and the row labels differ as
      lists of names, whatever the rows hold. */
  lemma WrongDyesIff(argv: seq<string>, input: seq<string>, id: string)
    requires |argv| == 4
    ensures Conversion(argv, input, id) == WrongDyes(argv[2])
            <==> !(Distinct(Parse(input).0) && Elements(Parse(input).0) == Parse(input).1.Keys)
  {
    DyesMatchIff(Parse(input).0, Parse(input).1);
  }

  /** A written file has n * n + 3 * n + 7 lines for the n header dyes. */
  lemma WrittenLength(argv: seq<string>, input: seq<string>, id: string)
    requires Conversion(argv, input, id).Written?
    ensures var n := |Parse(input).0|;
            |Conversion(argv, input, id).lines| == n * n + 3 * n + 7
  {
    var (dyes, spillover) := Parse(input);
    RenderLength(argv[1], id, dyes, spillover);
  }

  /** A written file whose matrix name, dyes and coefficient texts hold no line break (the
      identifier never does) splits at its line breaks into exactly the lines of the model,
      n * n + 3 * n + 7 of them. */
  lemma WrittenPhysicalLines(argv: seq<string>, input: seq<string>, id: string)
    requires Conversion(argv, input, id).Written?
    requires BreakFree(argv[1], id, Parse(input).0, Parse(input).1)
    ensures var lines := Conversion(argv, input, id).lines;
            var n := |Parse(input).0|;
            |lines| == n * n + 3 * n + 7 && Split(Join(lines, '\n'), '\n') == lines
  {
    var (dyes, spillover) := Parse(input);
    PhysicalLines(argv[1], id, dyes, spillover);
  }

  /** An empty file has no dyes and no rows, passes the check and gives an empty matrix. */
  lemma EmptyInput(argv: seq<string>, id: string)
    requires |argv| == 4
    ensures Conversion(argv, [], id).Written?
    ensures |Conversion(argv, [], id).lines| == 7
  {
    RenderLength(argv[1], id, [], map[]);
  }

  /** A row label that is not a header dye fails the dye check. */
  lemma StrayLabel(argv: seq<string>, input: seq<string>, id: string, stray: string)
    requires |argv| == 4
    requires stray in Parse(input).1 && stray !in Parse(input).0
    ensures Conversion(argv, input, id) == WrongDyes(argv[2])
    ensures ExitCode(Conversion(argv, input, id)) == 2
  {
    WrongDyesIff(argv, input, id);
  }

  /** When the labels match, the last row under the label of a header dye decides whether the
      script fails: fewer cells than dyes means `KeyError`. */
  lemma ShortRow(argv: seq<string>, input: seq<string>, id: string, i: nat)
    requires |argv| == 4 && input != []
    requires var dyes := HeaderDyes(input[0]);
             DyesMatch(dyes, Parse(input).1)
    requires var entries := RowEntries(input[1..]);
             i < |entries| && LastEntry(entries, i) && |entries[i].1| < |HeaderDyes(input[0])|
    ensures Conversion(argv, input, id).KeyError?
    ensures ExitCode(Conversion(argv, input, id)) == 1
  {
    CompleteIff(HeaderDyes(input[0]), RowEntries(input[1..]));
  }

  /** When the labels match but a row lacks a coefficient, the script fails with the lines of
      the partial file printed. */
  lemma KeyErrorLines(argv: seq<string>, input: seq<string>, id: string)
    requires |argv| == 4
    requires DyesMatch(Parse(input).0, Parse(input).1) && !Complete(Parse(input).0, Parse(input).1)
    ensures RowsPresent(Parse(input).0, Parse(input).1)
    ensures Conversion(argv, input, id) == KeyError(PartialRender(argv[1], id, Parse(input).0, Parse(input).1))
  {
    MatchedRowsPresent(Parse(input).0, Parse(input).1);
  }

  /** The file a failed lookup leaves behind is a proper start of the file the script would
      write for any complete matrix holding the entries it read. */
  lemma KeyErrorPrefix(argv: seq<string>, input: seq<string>, id: string, full: Matrix)
    requires |argv| == 4
    requires DyesMatch(Parse(input).0, Parse(input).1) && !Complete(Parse(input).0, Parse(input).1)
    requires Complete(Parse(input).0, full) && Extends(full, Parse(input).1)
    ensures Conversion(argv, input, id).KeyError?
    ensures var lines := Conversion(argv, input, id).lines;
            var whole := Render(argv[1], id, Parse(input).0, full);
            |lines| < |whole| && lines == whole[..|lines|]
  {
    var dyes, spillover := Parse(input).0, Parse(input).1;
    KeyErrorLines(argv, input, id);
    var lines := PartialRender(argv[1], id, dyes, spillover);
    var whole := Render(argv[1], id, dyes, full);
    assert |lines| < |whole| && lines == whole[..|lines|] by {
      PartialIsPrefix(argv[1], id, dyes, spillover, full);
    }
  }

  /** A coefficient cell a row line can carry: no comma, and no white space at its end, which
      the `rstrip()` of the row's last cell would remove. */
  predicate PlainCell(c: string)
  {
    ',' !in c && (c == [] || !IsSpace(c[|c| - 1]))
  }

  /** A square table as the input format intends it: distinct plain dye names and, for each
      dye, a row of one plain cell per dye. */
  predicate Square(dyes: seq<string>, cells: seq<seq<string>>)
  {
    Distinct(dyes) && |cells| == |dyes|
    && (forall i :: 0 <= i < |dyes| ==> PlainDye(dyes[i]))
    && forall i :: 0 <= i < |cells| ==>
         |cells[i]| == |dyes| && forall j :: 0 <= j < |cells[i]| ==> PlainCell(cells[i][j])
  }

  /** The row lines of a square table, row `i` labelled with dye `i`. */
  function Table(dyes: seq<string>, cells: seq<seq<string>>): (r: seq<string>)
    requires |cells| == |dyes|
    ensures |r| == |dyes| && forall i :: 0 <= i < |dyes| ==> r[i] == RowLine(dyes[i], cells[i])
  {
    seq(|dyes|, i requires 0 <= i < |dyes| => RowLine(dyes[i], cells[i]))
  }

  /** The file of a square table: the header line, bare or quoted, and the row lines. */
  function TableFile(dyes: seq<string>, cells: seq<seq<string>>, quote: string): (r: seq<string>)
    requires |cells| == |dyes|
    ensures |r| == |dyes| + 1 && r[0] == HeaderLine(dyes, quote) && r[1..] == Table(dyes, cells)
  {
    [HeaderLine(dyes, quote)] + Table(dyes, cells)
  }

  /** Each row line of a square table reads back as its dye and its cells. */
  lemma TableEntries(dyes: seq<string>, cells: seq<seq<string>>)
    requires Square(dyes, cells)
    ensures forall i :: 0 <= i < |dyes| ==> RowEntries(Table(dyes, cells))[i] == (dyes[i], cells[i])
  {
    forall i | 0 <= i < |dyes|
      ensures RowEntries(Table(dyes, cells))[i] == (dyes[i], cells[i])
    {
      var row := cells[i];
      assert |row| > 0 && row[|row| - 1] != [] ==> !IsSpace(row[|row| - 1][|row[|row| - 1]| - 1]) by {
        if |row| > 0 {
          assert PlainCell(row[|row| - 1]);
        }
      }
      RowRoundTrip(dyes[i], row);
      MapAt(RowEntry, Table(dyes, cells), i, RowLine(dyes[i], row));
    }
  }

  /** The matrix of the entries of a square table: its rows are the dyes, and the entry for
      row `dyes[i]` and column `dyes[j]` is `cells[i][j]`. */
  lemma TableRows(dyes: seq<string>, cells: seq<seq<string>>, entries: seq<(string, seq<string>)>)
    requires Square(dyes, cells) && |entries| == |dyes|
    requires forall i :: 0 <= i < |entries| ==> entries[i] == (dyes[i], cells[i])
    ensures Rows(dyes, entries).Keys == Elements(dyes)
    ensures forall i, j :: 0 <= i < |dyes| && 0 <= j < |dyes| ==>
              dyes[i] in Rows(dyes, entries) && dyes[j] in Rows(dyes, entries)[dyes[i]]
              && Rows(dyes, entries)[dyes[i]][dyes[j]] == cells[i][j]
  {
    var spillover := Rows(dyes, entries);
    RowsKeys(dyes, entries);
    assert spillover.Keys == Elements(dyes) by {
      forall x ensures x in spillover.Keys <==> x in Elements(dyes) {
        if x in Elements(dyes) {
          var i :| 0 <= i < |dyes| && dyes[i] == x;
          assert entries[i].0 == x;
        }
      }
    }
    forall i, j | 0 <= i < |dyes| && 0 <= j < |dyes|
      ensures dyes[i] in spillover && dyes[j] in spillover[dyes[i]] && spillover[dyes[i]][dyes[j]] == cells[i][j]
    {
      RowsValue(dyes, entries, i);
      ZipDistinct(dyes, cells[i]);
    }
  }

  /** Reading the file of a square table gives its dyes in order, and the matrix of its row
      lines. */
  lemma ParseTable(dyes: seq<string>, cells: seq<seq<string>>, quote: string)
    requires Square(dyes, cells) && (quote == "" || quote == "\"")
    ensures Parse(TableFile(dyes, cells, quote)) == (dyes, Rows(dyes, RowEntries(Table(dyes, cells))))
  {
    HeaderRoundTrip(dyes, quote);
  }

  /** The matrix the row lines of a square table give. */
  function TableMatrix(dyes: seq<string>, cells: seq<seq<string>>): Matrix
    requires |cells| == |dyes|
  {
    Rows(dyes, RowEntries(Table(dyes, cells)))
  }

  /** The matrix of a square table passes the dye check, every lookup the writer makes finds a
      value, and the value for row `dyes[i]` and column `dyes[j]` is `cells[i][j]`. */
  lemma TableMatrixSound(dyes: seq<string>, cells: seq<seq<string>>)
    requires Square(dyes, cells)
    ensures DyesMatch(dyes, TableMatrix(dyes, cells)) && Complete(dyes, TableMatrix(dyes, cells))
    ensures forall i, j :: 0 <= i < |dyes| && 0 <= j < |dyes| ==> TableMatrix(dyes, cells)[dyes[i]][dyes[j]] == cells[i][j]
  {
    var entries := RowEntries(Table(dyes, cells));
    TableEntries(dyes, cells);
    TableRows(dyes, cells, entries);
    DyesMatchIff(dyes, TableMatrix(dyes, cells));
  }

  /** The file of a square table is converted: the script writes the rendering of its matrix. */
  lemma SquareTableWritten(argv: seq<string>, dyes: seq<string>, cells: seq<seq<string>>, quote: string, id: string)
    requires |argv| == 4 && Square(dyes, cells) && (quote == "" || quote == "\"")
    ensures Complete(dyes, TableMatrix(dyes, cells))
    ensures Conversion(argv, TableFile(dyes, cells, quote), id)
            == Written(Render(argv[1], id, dyes, TableMatrix(dyes, cells)))
  {
    ParseTable(dyes, cells, quote);
    TableMatrixSound(dyes, cells);
  }

  /** In the file written for a square table with names free of quotes and equals signs, the
      coefficient line for row `i` and column `j` carries the sanitised name of dye `j` and,
      verbatim, cell `j` of row `i`. */
  lemma SquareTableConverted(argv: seq<string>, dyes: seq<string>, cells: seq<seq<string>>, quote: string,
                             id: string, i: nat, j: nat)
    requires |argv| == 4 && Square(dyes, cells) && (quote == "" || quote == "\"")
    requires forall k :: 0 <= k < |dyes| ==> Inert(dyes[k])
    requires i < |dyes| && j < |dyes|
    ensures var o := Conversion(argv, TableFile(dyes, cells, quote), id);
            var n := |dyes|;
            o.Written? && BlockStart(n, i) + 1 + j < |o.lines|
            && o.lines[BlockStart(n, i) + 1 + j]
               == "      <transforms:coefficient " + Filled("data-type:parameter", SanitizeDye(dyes[j])) + " "
                  + Filled("transforms:value", cells[i][j]) + "/>"
  {
    SquareTableWritten(argv, dyes, cells, quote, id);
    TableMatrixSound(dyes, cells);
    RenderCoefficient(argv[1], id, dyes, TableMatrix(dyes, cells), i, j);
  }
}
