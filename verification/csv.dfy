/** Reading the spillover CSV. The first line is the header and gives the ordered dye list;
    every later line is one row of the matrix, stored under its quote-stripped first cell as
    the pairing of the header dyes with the row's remaining cells. */
module SpilloverCsv {
  import opened Lists
  import opened PyStr

  /** One row of the matrix: header dye to coefficient text. */
  type Row = map<string, string>

  /** The matrix: row label to row. */
  type Matrix = map<string, Row>

  /** The cells of a line: `line.rstrip().split(',')`. */
  function Cells(line: string): (r: seq<string>)
    ensures |r| >= 1
  {
    Split(RStrip(line), ',')
  }

  /** Each cell with every surrounding `"` removed. */
  function StripQuotes(cells: seq<string>): (r: seq<string>)
    ensures |r| == |cells|
  {
    seq(|cells|, i requires 0 <= i < |cells| => Strip(cells[i], '"'))
  }

  /** The non-empty words, in their original order. */
  function NonEmpty(words: seq<string>): (r: seq<string>)
    ensures |r| <= |words|
    ensures forall i :: 0 <= i < |r| ==> r[i] != []
  {
    if words == [] then []
    else
      var word := words[|words| - 1];
      NonEmpty(words[..|words| - 1]) + (if word != [] then [word] else [])
  }

  /** What the header loop keeps of a run of cells: each cell with every surrounding `"`
      removed, the empty results dropped, in their original order. */
  function HeaderWords(cells: seq<string>): (dyes: seq<string>)
  {
    NonEmpty(StripQuotes(cells))
  }

  /** The dye list a header line gives. */
  function HeaderDyes(line: string): seq<string>
  {
    HeaderWords(Cells(line))
  }

  /** The label of a row line: its first cell with every surrounding `"` removed. */
  function RowLabel(line: string): string
  {
    Strip(Cells(line)[0], '"')
  }

  /** The coefficient cells of a row line: every cell after the first, kept verbatim. */
  function RowCells(line: string): seq<string>
  {
    Cells(line)[1..]
  }

  /** `dict` of equally long key and value lists taken pair by pair, so that a repeated key
      ends up with its last value. */
  function PairUp(keys: seq<string>, values: seq<string>): Row
    requires |keys| == |values|
  {
    if keys == [] then map[]
    else PairUp(keys[..|keys| - 1], values[..|values| - 1])[keys[|keys| - 1] := values[|values| - 1]]
  }

  /** `dict(zip(keys, values))`: `zip` stops at the shorter list. */
  function Zip(keys: seq<string>, values: seq<string>): Row
  {
    var n := if |keys| < |values| then |keys| else |values|;
    PairUp(keys[..n], values[..n])
  }

  /** A row line as the loop reads it: its label and its coefficient cells. */
  function RowEntry(line: string): (string, seq<string>)
  {
    (RowLabel(line), RowCells(line))
  }

  /** The entries of a run of row lines, in order. */
  function RowEntries(rows: seq<string>): (r: seq<(string, seq<string>)>)
    ensures |r| == |rows|
  {
    Map(RowEntry, rows)
  }

  /** The matrix after the given row entries: each sets its label to the zip of the header
      dyes with its cells, so that a later row with the same label replaces an earlier one. */
  function Rows(dyes: seq<string>, entries: seq<(string, seq<string>)>): Matrix
  {
    if entries == [] then map[]
    else
      var last := entries[|entries| - 1];
      Rows(dyes, entries[..|entries| - 1])[last.0 := Zip(dyes, last.1)]
  }

  /** The dyes and the matrix a whole file gives: the header from the first line only, the
      rows from all the others. */
  function Parse(lines: seq<string>): (seq<string>, Matrix)
  {
    if lines == [] then ([], map[])
    else
      var dyes := HeaderDyes(lines[0]);
      (dyes, Rows(dyes, RowEntries(lines[1..])))
  }

  /** The header branch of the read loop: the cells of the first line, one at a time. */
  method ReadHeader(line: string) returns (dyes: seq<string>)
    ensures dyes == HeaderDyes(line)
  {
    dyes := [];
    var words := Cells(line);
    ghost var stripped := StripQuotes(words);
    for j := 0 to |words|
      invariant dyes == NonEmpty(stripped[..j])
    {
      var word := Strip(words[j], '"');
      assert dyes + (if word != [] then [word] else []) == NonEmpty(stripped[..j + 1]) by {
        assert word == stripped[j];
        NonEmptyStep(stripped, j);
      }
      if word != [] {
        dyes := dyes + [word];
      }
    }
    assert stripped[..|words|] == stripped;
  }

  /** One more word for the filter. */
  lemma NonEmptyStep(words: seq<string>, j: nat)
    requires j < |words|
    ensures NonEmpty(words[..j + 1]) == NonEmpty(words[..j]) + (if words[j] != [] then [words[j]] else [])
  {
    assert words[..j + 1][..j] == words[..j];
  }

  /** The filter keeps each non-empty word as often as it occurs and drops every empty one. */
  lemma {:induction false} NonEmptyCounts(words: seq<string>)
    ensures forall x :: multiset(NonEmpty(words))[x] == if x == [] then 0 else multiset(words)[x]
    decreases |words|
  {
    if words != [] {
      var front, last := words[..|words| - 1], words[|words| - 1];
      NonEmptyCounts(front);
      assert words == front + [last];
    }
  }

  /** The filter works word by word: the words it keeps of two runs of cells are those it keeps
      of the first, then those it keeps of the second, so it never reorders them. */
  lemma {:induction false} NonEmptyAppend(a: seq<string>, b: seq<string>)
    ensures NonEmpty(a + b) == NonEmpty(a) + NonEmpty(b)
    decreases |b|
  {
    if b == [] {
      assert a + b == a;
    } else {
      var front, last := b[..|b| - 1], b[|b| - 1];
      NonEmptyAppend(a, front);
      assert (a + b)[..|a + b| - 1] == a + front;
    }
  }

  /** A single word is kept exactly when it is not empty. */
  lemma NonEmptySingle(w: string)
    ensures NonEmpty([w]) == if w != [] then [w] else []
  {
    assert [w][..0] == [];
  }

  lemma RowEntriesSnoc(rows: seq<string>)
    requires rows != []
    ensures RowEntries(rows) == RowEntries(rows[..|rows| - 1]) + [RowEntry(rows[|rows| - 1])]
  {
    var front, last := rows[..|rows| - 1], rows[|rows| - 1];
    MapSnoc(RowEntry, front, last, RowEntry(last));
    assert front + [last] == rows;
  }

  /** One row line read by the loop adds its entry to the matrix built so far. */
  lemma RowsStep(dyes: seq<string>, lines: seq<string>, i: nat)
    requires 1 <= i < |lines|
    ensures Rows(dyes, RowEntries(lines[1..i + 1]))
            == Rows(dyes, RowEntries(lines[1..i]))[RowLabel(lines[i]) := Zip(dyes, RowCells(lines[i]))]
  {
    var rows := lines[1..i + 1];
    RowEntriesSnoc(rows);
    assert rows[..i - 1] == lines[1..i] && rows[i - 1] == lines[i];
    RowsSnoc(dyes, RowEntries(lines[1..i]), RowEntry(lines[i]));
  }

  /** The matrix after one more entry. */
  lemma RowsSnoc(dyes: seq<string>, entries: seq<(string, seq<string>)>, entry: (string, seq<string>))
    ensures Rows(dyes, entries + [entry]) == Rows(dyes, entries)[entry.0 := Zip(dyes, entry.1)]
  {
    assert (entries + [entry])[..|entries|] == entries;
  }

  /** The read loop: the first line fills the dye list, every later line adds or replaces one
      row; only the first line is ever read as a header. */
  method ReadSpillover(lines: seq<string>) returns (dyes: seq<string>, spillover: Matrix)
    ensures (dyes, spillover) == Parse(lines)
  {
    dyes := [];
    spillover := map[];
    var initialLine := true;
    for i := 0 to |lines|
      invariant initialLine <==> i == 0
      invariant i == 0 ==> dyes == [] && spillover == map[]
      invariant i > 0 ==> dyes == HeaderDyes(lines[0]) && spillover == Rows(dyes, RowEntries(lines[1..i]))
    {
      var line := lines[i];
      if initialLine {
        dyes := ReadHeader(line);
        initialLine := false;
      } else {
        var dyeProper, cells := RowLabel(line), RowCells(line);
        RowsStep(dyes, lines, i);
        spillover := spillover[dyeProper := Zip(dyes, cells)];
      }
    }
    assert lines != [] ==> lines[1..|lines|] == lines[1..];
  }

  /** The keys of a zipped row are the keys that found a partner value. */
  lemma {:induction false} PairUpKeys(keys: seq<string>, values: seq<string>)
    requires |keys| == |values|
    ensures PairUp(keys, values).Keys == set i | 0 <= i < |keys| :: keys[i]
    decreases |keys|
  {
    if keys != [] {
      var n := |keys| - 1;
      PairUpKeys(keys[..n], values[..n]);
      var front := set i | 0 <= i < n :: keys[..n][i];
      forall i | 0 <= i < |keys|
        ensures keys[i] in front + {keys[n]}
      {
        if i < n {
          assert keys[..n][i] == keys[i];
        }
      }
      assert (set i | 0 <= i < |keys| :: keys[i]) == front + {keys[n]};
    }
  }

  /** A key's value in a zipped row is the value paired with its last occurrence. */
  lemma {:induction false} PairUpValue(keys: seq<string>, values: seq<string>, i: nat)
    requires |keys| == |values| && i < |keys|
    requires forall j :: i < j < |keys| ==> keys[j] != keys[i]
    ensures keys[i] in PairUp(keys, values) && PairUp(keys, values)[keys[i]] == values[i]
    decreases |keys|
  {
    var n := |keys| - 1;
    if i < n {
      PairUpValue(keys[..n], values[..n], i);
    }
  }

  /** `dict(zip(...))` has exactly the keys that found a value within the shorter length. */
  lemma ZipKeys(keys: seq<string>, values: seq<string>)
    ensures Zip(keys, values).Keys == set j | 0 <= j < |keys| && j < |values| :: keys[j]
  {
    var n := if |keys| < |values| then |keys| else |values|;
    PairUpKeys(keys[..n], values[..n]);
    assert (set j | 0 <= j < n :: keys[..n][j]) == set j | 0 <= j < |keys| && j < |values| :: keys[j];
  }

  /** A key maps to the value at its last position within the shorter length. */
  lemma ZipValue(keys: seq<string>, values: seq<string>, i: nat)
    requires i < |keys| && i < |values|
    requires forall j :: i < j < |keys| && j < |values| ==> keys[j] != keys[i]
    ensures keys[i] in Zip(keys, values) && Zip(keys, values)[keys[i]] == values[i]
  {
    var n := if |keys| < |values| then |keys| else |values|;
    PairUpValue(keys[..n], values[..n], i);
  }

  /** With distinct header dyes, a row that has at least one cell per dye maps the i-th dye
      to its (i+1)-th cell. */
  lemma ZipDistinct(keys: seq<string>, values: seq<string>)
    requires forall a, b :: 0 <= a < b < |keys| ==> keys[a] != keys[b]
    requires |keys| <= |values|
    ensures Zip(keys, values).Keys == set j | 0 <= j < |keys| :: keys[j]
    ensures forall i :: 0 <= i < |keys| ==> Zip(keys, values)[keys[i]] == values[i]
  {
    var n := |keys|;
    PairUpKeys(keys[..n], values[..n]);
    assert keys[..n] == keys;
    forall i | 0 <= i < |keys|
      ensures Zip(keys, values)[keys[i]] == values[i]
    {
      PairUpValue(keys[..n], values[..n], i);
    }
  }

  /** The row labels of the matrix are exactly the labels of the entries. */
  lemma {:induction false} RowsKeys(dyes: seq<string>, entries: seq<(string, seq<string>)>)
    ensures Rows(dyes, entries).Keys == set i | 0 <= i < |entries| :: entries[i].0
    decreases |entries|
  {
    if entries != [] {
      var n := |entries| - 1;
      RowsKeys(dyes, entries[..n]);
      var front := set i | 0 <= i < n :: entries[..n][i].0;
      forall i | 0 <= i < |entries|
        ensures entries[i].0 in front + {entries[n].0}
      {
        if i < n {
          assert entries[..n][i] == entries[i];
        }
      }
      assert (set i | 0 <= i < |entries| :: entries[i].0) == front + {entries[n].0};
    }
  }

  /** A label's row is the one built from the LAST entry carrying that label. */
  lemma {:induction false} RowsValue(dyes: seq<string>, entries: seq<(string, seq<string>)>, i: nat)
    requires i < |entries|
    requires forall j :: i < j < |entries| ==> entries[j].0 != entries[i].0
    ensures entries[i].0 in Rows(dyes, entries)
    ensures Rows(dyes, entries)[entries[i].0] == Zip(dyes, entries[i].1)
    decreases |entries|
  {
    var n := |entries| - 1;
    if i < n {
      RowsValue(dyes, entries[..n], i);
      assert entries[..n][i] == entries[i];
    }
  }

  /** A header cell text that survives `strip('"')` and the final `rstrip()` unchanged. */
  predicate PlainDye(d: string)
  {
    d != [] && ',' !in d && d[0] != '"' && d[|d| - 1] != '"' && !IsSpace(d[|d| - 1])
  }

  /** Each of `texts` wrapped in `quote`. */
  function Wrapped(texts: seq<string>, quote: string): (r: seq<string>)
    ensures |r| == |texts| && forall i :: 0 <= i < |texts| ==> r[i] == quote + texts[i] + quote
  {
    seq(|texts|, i requires 0 <= i < |texts| => quote + texts[i] + quote)
  }

  /** A header line as the input format describes it: an empty corner cell and then the dye
      names, each bare or in double quotes, and the line break. */
  function HeaderLine(dyes: seq<string>, quote: string): string
  {
    Join(HeaderCells(dyes, quote), ',') + "\n"
  }

  /** A row line: the quoted label and the coefficient cells, and the line break. */
  function RowLine(dye: string, cells: seq<string>): string
  {
    Join(["\"" + dye + "\""] + cells, ',') + "\n"
  }

  lemma RStripNewline(text: string)
    requires text == [] || !IsSpace(text[|text| - 1])
    ensures RStrip(text + "\n") == text
  {
    assert (text + "\n")[..|text|] == text;
  }

  /** A plain name in optional quotes strips back to itself. */
  lemma StripWrapped(d: string, quote: string)
    requires quote == "" || quote == "\""
    requires d == [] || (d[0] != '"' && d[|d| - 1] != '"')
    ensures Strip(quote + d + quote, '"') == d
  {
    assert quote + d + quote == Repeat('"', |quote|) + d + Repeat('"', |quote|);
    StripExact('"', |quote|, d, |quote|);
  }

  /** Filtering an empty word followed by non-empty words keeps those words. */
  lemma {:induction false} NonEmptyOf(words: seq<string>, dyes: seq<string>, k: nat)
    requires |words| == |dyes| + 1 && k <= |dyes|
    requires words[0] == []
    requires forall i :: 0 <= i < |dyes| ==> dyes[i] != [] && words[i + 1] == dyes[i]
    ensures NonEmpty(words[..k + 1]) == dyes[..k]
    decreases k
  {
    NonEmptyStep(words, k);
    if k == 0 {
      assert words[..0] == [];
    } else {
      NonEmptyOf(words, dyes, k - 1);
      assert dyes[..k] == dyes[..k - 1] + [dyes[k - 1]];
    }
  }

  /** The cells of a line written as parts joined by commas are those parts, provided no part
      holds a comma and the joined text does not end in white space. */
  lemma CellsOfLine(parts: seq<string>)
    requires |parts| >= 1
    requires forall i :: 0 <= i < |parts| ==> ',' !in parts[i]
    requires Join(parts, ',') == [] || !IsSpace(Join(parts, ',')[|Join(parts, ',')| - 1])
    ensures Cells(Join(parts, ',') + "\n") == parts
  {
    RStripNewline(Join(parts, ','));
    SplitJoin(parts, ',');
  }

  /** A joined list whose last part is non-empty ends with that part's last character. */
  lemma JoinLastChar(parts: seq<string>, sep: char)
    requires |parts| >= 1 && parts[|parts| - 1] != []
    ensures Join(parts, sep) != []
    ensures Join(parts, sep)[|Join(parts, sep)| - 1] == parts[|parts| - 1][|parts[|parts| - 1]| - 1]
  {
    JoinLast(parts, sep);
    var last := parts[|parts| - 1];
    var text := Join(parts, sep);
    assert text[|text| - |last|..][|last| - 1] == last[|last| - 1];
  }

  /** The cells of a header line: the empty corner cell and the wrapped names. */
  function HeaderCells(dyes: seq<string>, quote: string): (r: seq<string>)
    ensures |r| == |dyes| + 1 && r[0] == []
    ensures forall i :: 0 <= i < |dyes| ==> r[i + 1] == quote + dyes[i] + quote
  {
    [""] + Wrapped(dyes, quote)
  }

  lemma HeaderCellsCommaFree(dyes: seq<string>, quote: string)
    requires quote == "" || quote == "\""
    requires forall i :: 0 <= i < |dyes| ==> PlainDye(dyes[i])
    ensures forall i :: 0 <= i < |HeaderCells(dyes, quote)| ==> ',' !in HeaderCells(dyes, quote)[i]
  {
    var cells := HeaderCells(dyes, quote);
    forall i | 0 <= i < |cells|
      ensures ',' !in cells[i]
    {
      if i > 0 {
        assert cells[i] == quote + dyes[i - 1] + quote;
      }
    }
  }

  lemma HeaderTextEnd(dyes: seq<string>, quote: string)
    requires quote == "" || quote == "\""
    requires forall i :: 0 <= i < |dyes| ==> PlainDye(dyes[i])
    ensures var text := Join(HeaderCells(dyes, quote), ','); text == [] || !IsSpace(text[|text| - 1])
  {
    var cells := HeaderCells(dyes, quote);
    if |dyes| > 0 {
      var d := dyes[|dyes| - 1];
      assert cells[|cells| - 1] == quote + d + quote;
      assert (quote + d + quote)[|quote + d + quote| - 1] == (if quote == "" then d[|d| - 1] else '"');
      JoinLastChar(cells, ',');
    }
  }

  lemma HeaderCellsStrip(dyes: seq<string>, quote: string)
    requires quote == "" || quote == "\""
    requires forall i :: 0 <= i < |dyes| ==> PlainDye(dyes[i])
    ensures StripQuotes(HeaderCells(dyes, quote))[0] == []
    ensures forall i :: 0 <= i < |dyes| ==> StripQuotes(HeaderCells(dyes, quote))[i + 1] == dyes[i]
  {
    HeaderCornerStrip(dyes, quote);
    forall i | 0 <= i < |dyes|
      ensures StripQuotes(HeaderCells(dyes, quote))[i + 1] == dyes[i]
    {
      HeaderCellStrip(dyes, quote, i);
    }
  }

  lemma HeaderCornerStrip(dyes: seq<string>, quote: string)
    ensures StripQuotes(HeaderCells(dyes, quote))[0] == []
  {
    assert StripQuotes(HeaderCells(dyes, quote))[0] == Strip([], '"');
  }

  lemma HeaderCellStrip(dyes: seq<string>, quote: string, i: nat)
    requires quote == "" || quote == "\""
    requires i < |dyes| && PlainDye(dyes[i])
    ensures StripQuotes(HeaderCells(dyes, quote))[i + 1] == dyes[i]
  {
    var cell := HeaderCells(dyes, quote)[i + 1];
    assert cell == quote + dyes[i] + quote;
    StripWrapped(dyes[i], quote);
  }

  /** Reading a header line gives back exactly the dye names written into it, in order,
      whether they were quoted or not. */
  lemma HeaderRoundTrip(dyes: seq<string>, quote: string)
    requires quote == "" || quote == "\""
    requires forall i :: 0 <= i < |dyes| ==> PlainDye(dyes[i])
    ensures HeaderDyes(HeaderLine(dyes, quote)) == dyes
  {
    HeaderLineCells(dyes, quote);
    HeaderCellsWords(dyes, quote);
  }

  lemma HeaderLineCells(dyes: seq<string>, quote: string)
    requires quote == "" || quote == "\""
    requires forall i :: 0 <= i < |dyes| ==> PlainDye(dyes[i])
    ensures Cells(HeaderLine(dyes, quote)) == HeaderCells(dyes, quote)
  {
    HeaderCellsCommaFree(dyes, quote);
    HeaderTextEnd(dyes, quote);
    CellsOfLine(HeaderCells(dyes, quote));
  }

  lemma HeaderCellsWords(dyes: seq<string>, quote: string)
    requires quote == "" || quote == "\""
    requires forall i :: 0 <= i < |dyes| ==> PlainDye(dyes[i])
    ensures HeaderWords(HeaderCells(dyes, quote)) == dyes
  {
    var words := StripQuotes(HeaderCells(dyes, quote));
    assert NonEmpty(words[..|dyes| + 1]) == dyes[..|dyes|] by {
      HeaderCellsStrip(dyes, quote);
      NonEmptyOf(words, dyes, |dyes|);
    }
    assert words[..|dyes| + 1] == words;
    assert dyes[..|dyes|] == dyes;
  }

  /** A joined list ends with its last part. */
  lemma {:induction false} JoinLast(parts: seq<string>, sep: char)
    requires |parts| >= 1
    ensures |Join(parts, sep)| >= |parts[|parts| - 1]|
    ensures Join(parts, sep)[|Join(parts, sep)| - |parts[|parts| - 1]|..] == parts[|parts| - 1]
    decreases |parts|
  {
    if |parts| > 1 {
      JoinLast(parts[1..], sep);
    }
  }

  /** Reading a row line gives back its label and its cells verbatim. */
  lemma RowRoundTrip(dye: string, cells: seq<string>)
    requires ',' !in dye && (dye == [] || (dye[0] != '"' && dye[|dye| - 1] != '"'))
    requires forall i :: 0 <= i < |cells| ==> ',' !in cells[i]
    requires |cells| > 0 && cells[|cells| - 1] != [] ==> !IsSpace(cells[|cells| - 1][|cells[|cells| - 1]| - 1])
    ensures RowLabel(RowLine(dye, cells)) == dye
    ensures RowCells(RowLine(dye, cells)) == cells
  {
    var first := "\"" + dye + "\"";
    var parts := [first] + cells;
    var last := parts[|parts| - 1];
    if last != [] {
      assert last[|last| - 1] == '"' || last == cells[|cells| - 1];
      JoinLastChar(parts, ',');
    } else {
      assert Join(parts, ',') == Join(parts[..|parts| - 1], ',') + [','] by {
        JoinSnoc(parts, ',');
      }
    }
    assert forall i :: 0 <= i < |parts| ==> ',' !in parts[i];
    CellsOfLine(parts);
    StripWrapped(dye, "\"");
    assert parts[1..] == cells;
  }

  /** Joining a longer list appends the separator and the new last part. */
  lemma {:induction false} JoinSnoc(parts: seq<string>, sep: char)
    requires |parts| >= 2
    ensures Join(parts, sep) == Join(parts[..|parts| - 1], sep) + [sep] + parts[|parts| - 1]
    decreases |parts|
  {
    if |parts| > 2 {
      JoinSnoc(parts[1..], sep);
      assert parts[1..][..|parts| - 2] == parts[..|parts| - 1][1..];
    }
  }
}
