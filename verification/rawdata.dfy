/** The two scripts that turn the raw iris measurements into data files:
    `cleanDecimalPoints` repairs the decimal separator on each line, and
    `convertToCsv` turns blocks of column values into CSV rows that end in
    the species name. File reading and writing are not modelled: both
    operations are functions from the file's text to the text written. */
module RawData {
  import opened Results
  import opened Text

  // ---------------------------------------------------------------------
  // `convertToCsv(data, species)`
  // ---------------------------------------------------------------------

  /** `.filter((column) => !!column)`: the non-empty chunks, in order. */
  function NonEmpty(chunks: seq<string>): (r: seq<string>)
    ensures forall j :: 0 <= j < |r| ==> |r[j]| > 0
    ensures forall x :: x in r <==> x in chunks && |x| > 0
    ensures |r| <= |chunks|
  {
    if |chunks| == 0 then []
    else if |chunks[0]| > 0 then [chunks[0]] + NonEmpty(chunks[1..])
    else NonEmpty(chunks[1..])
  }

  /** Filtering distributes over concatenation: the kept chunks keep their
      order and their multiplicity. */
  lemma {:induction false} NonEmptyAppend(a: seq<string>, b: seq<string>)
    ensures NonEmpty(a + b) == NonEmpty(a) + NonEmpty(b)
    decreases |a|
  {
    if |a| > 0 {
      assert (a + b)[1..] == a[1..] + b;
      NonEmptyAppend(a[1..], b);
    } else {
      assert a + b == b;
    }
  }

  /** The chunks between the species headers, each split into its lines:
      `columns[c][i]` is the `i`-th value of column `c`. */
  function Columns(chunks: seq<string>): (columns: seq<seq<string>>)
    ensures NoNewline(columns)
    ensures |columns| == |NonEmpty(chunks)|
    ensures forall c :: 0 <= c < |columns| ==> Join(columns[c], "\n") == NonEmpty(chunks)[c]
  {
    var blocks := NonEmpty(chunks);
    var columns := seq(|blocks|, c requires 0 <= c < |blocks| => Split(blocks[c], '\n'));
    assert forall c :: 0 <= c < |blocks| ==> Join(columns[c], "\n") == blocks[c] by {
      forall c | 0 <= c < |blocks| ensures Join(columns[c], "\n") == blocks[c] {
        JoinSplit(blocks[c], '\n');
      }
    }
    columns
  }

  /** No value of any column spans a line break. */
  predicate NoNewline(columns: seq<seq<string>>)
  {
    forall c, i :: 0 <= c < |columns| && 0 <= i < |columns[c]| ==> '\n' !in columns[c][i]
  }

  /** The value at index `i` of `column` if it is there and non-empty. */
  function Cell(column: seq<string>, i: nat): seq<string>
  {
    if i < |column| && |column[i]| > 0 then [column[i]] else []
  }

  /** Row `i` of the table: the non-empty `i`-th values of the columns, in
      column order. */
  function RowOf(columns: seq<seq<string>>, i: nat): seq<string>
  {
    if |columns| == 0 then [] else Cell(columns[0], i) + RowOf(columns[1..], i)
  }

  /** A row holds only non-empty values, taken from the columns. */
  lemma {:induction false} RowOfCells(columns: seq<seq<string>>, i: nat)
    ensures forall j :: 0 <= j < |RowOf(columns, i)| ==> |RowOf(columns, i)[j]| > 0
    ensures NoNewline(columns) ==> forall j :: 0 <= j < |RowOf(columns, i)| ==> '\n' !in RowOf(columns, i)[j]
  {
    if |columns| > 0 {
      RowOfCells(columns[1..], i);
      var cell := Cell(columns[0], i);
      var rest := RowOf(columns[1..], i);
      assert forall j :: |cell| <= j < |cell| + |rest| ==> RowOf(columns, i)[j] == rest[j - |cell|];
      if NoNewline(columns) {
        assert NoNewline(columns[1..]) by {
          assert forall c :: 0 <= c < |columns| - 1 ==> columns[1..][c] == columns[c + 1];
        }
      }
    }
  }

  /** `column` has nothing but empty values from index `n` on. */
  predicate Fits(column: seq<string>, n: nat)
  {
    forall i :: n <= i < |column| ==> |column[i]| == 0
  }

  /** The inner `forEach` from index `from` on: each non-empty value is
      pushed onto the row of its index; a row that does not exist is
      `undefined`, and pushing onto it throws. */
  function PushColumn(lines: seq<seq<string>>, column: seq<string>, from: nat): Result<seq<seq<string>>>
    requires from <= |column|
    decreases |column| - from
  {
    if from == |column| then Ok(lines)
    else if |column[from]| == 0 then PushColumn(lines, column, from + 1)
    else if from >= |lines| then Err("Cannot read properties of undefined (reading 'push')")
    else PushColumn(lines[from := lines[from] + [column[from]]], column, from + 1)
  }

  /** The outer `forEach`: the columns pushed one after the other. */
  function PushAll(lines: seq<seq<string>>, columns: seq<seq<string>>): Result<seq<seq<string>>>
    decreases |columns|
  {
    if |columns| == 0 then Ok(lines)
    else
      var next :- PushColumn(lines, columns[0], 0);
      PushAll(next, columns[1..])
  }

  /** Pushing one column fails exactly when a non-empty value lies beyond
      the last row, and otherwise appends each value to its own row. */
  lemma {:induction false} PushColumnSpec(lines: seq<seq<string>>, column: seq<string>, from: nat)
    requires from <= |column|
    ensures PushColumn(lines, column, from).Ok?
      <==> forall i :: from <= i < |column| && |column[i]| > 0 ==> i < |lines|
    ensures PushColumn(lines, column, from).Ok? ==>
      var v := PushColumn(lines, column, from).value;
      |v| == |lines| && forall i :: 0 <= i < |lines| ==>
        v[i] == lines[i] + (if from <= i then Cell(column, i) else [])
    decreases |column| - from
  {
    if from < |column| {
      if |column[from]| == 0 {
        PushColumnSpec(lines, column, from + 1);
      } else if from < |lines| {
        var next := lines[from := lines[from] + [column[from]]];
        PushColumnSpec(next, column, from + 1);
      }
    }
  }

  /** A successful push of a whole column appends each non-empty value to its own row. */
  lemma PushColumnRows(lines: seq<seq<string>>, column: seq<string>)
    requires PushColumn(lines, column, 0).Ok?
    ensures |PushColumn(lines, column, 0).value| == |lines|
    ensures forall i :: 0 <= i < |lines| ==> PushColumn(lines, column, 0).value[i] == lines[i] + Cell(column, i)
  {
    PushColumnSpec(lines, column, 0);
  }

  /** Pushing all columns fails exactly when some column does not fit the rows. */
  lemma {:induction false} PushAllOk(lines: seq<seq<string>>, columns: seq<seq<string>>)
    ensures PushAll(lines, columns).Ok?
      <==> forall c :: 0 <= c < |columns| ==> Fits(columns[c], |lines|)
    decreases |columns|
  {
    if |columns| > 0 {
      PushColumnSpec(lines, columns[0], 0);
      if PushColumn(lines, columns[0], 0).Ok? {
        var next := PushColumn(lines, columns[0], 0).value;
        PushAllOk(next, columns[1..]);
        assert forall c :: 1 <= c < |columns| ==> columns[1..][c - 1] == columns[c];
      } else {
        assert !Fits(columns[0], |lines|);
      }
    }
  }

  /** When pushing all columns succeeds, row `i` has gained `RowOf(columns, i)`. */
  lemma {:induction false} PushAllRows(lines: seq<seq<string>>, columns: seq<seq<string>>)
    requires PushAll(lines, columns).Ok?
    ensures var v := PushAll(lines, columns).value;
      |v| == |lines| && forall i :: 0 <= i < |lines| ==> v[i] == lines[i] + RowOf(columns, i)
    decreases |columns|
  {
    if |columns| > 0 {
      PushColumnRows(lines, columns[0]);
      var next := PushColumn(lines, columns[0], 0).value;
      PushAllRows(next, columns[1..]);
      var v := PushAll(lines, columns).value;
      assert v == PushAll(next, columns[1..]).value;
      forall i | 0 <= i < |lines|
        ensures v[i] == lines[i] + RowOf(columns, i)
      {
        assert next[i] == lines[i] + Cell(columns[0], i);
        assert v[i] == next[i] + RowOf(columns[1..], i);
        assert RowOf(columns, i) == Cell(columns[0], i) + RowOf(columns[1..], i);
        assert (lines[i] + Cell(columns[0], i)) + RowOf(columns[1..], i)
          == lines[i] + (Cell(columns[0], i) + RowOf(columns[1..], i));
      }
    }
  }

  /** Both halves: pushing all columns fails exactly when some column does
      not fit the rows; otherwise row `i` has gained `RowOf(columns, i)`. */
  lemma PushAllSpec(lines: seq<seq<string>>, columns: seq<seq<string>>)
    ensures PushAll(lines, columns).Ok?
      <==> forall c :: 0 <= c < |columns| ==> Fits(columns[c], |lines|)
    ensures PushAll(lines, columns).Ok? ==>
      var v := PushAll(lines, columns).value;
      |v| == |lines| && forall i :: 0 <= i < |lines| ==> v[i] == lines[i] + RowOf(columns, i)
  {
    PushAllOk(lines, columns);
    if PushAll(lines, columns).Ok? {
      PushAllRows(lines, columns);
    }
  }

  /** `Array.from({ length: n }).map(() => [])`: `n` empty rows. */
  function EmptyRows(n: nat): (r: seq<seq<string>>)
    ensures |r| == n && forall i :: 0 <= i < n ==> r[i] == []
  {
    seq(n, _ => [])
  }

  /** One empty row per value of the first column, then every column pushed. */
  function Pushed(columns: seq<seq<string>>): Result<seq<seq<string>>>
    requires |columns| > 0
  {
    PushAll(EmptyRows(|columns[0]|), columns)
  }

  /** `while (!newLines[newLines.length - 1].join(''))` `newLines.pop()`:
      rows whose values join to nothing are dropped from the end. Once no
      row is left, the last row is `undefined` and reading it throws. */
  function TrimTrailing(lines: seq<seq<string>>): (r: Result<seq<seq<string>>>)
    ensures r.Err? ==> forall i :: 0 <= i < |lines| ==> |Join(lines[i], "")| == 0
    ensures r.Ok? ==> r.value <= lines && |r.value| > 0
    ensures r.Ok? ==> |Join(r.value[|r.value| - 1], "")| > 0
    ensures r.Ok? ==> forall i :: |r.value| <= i < |lines| ==> |Join(lines[i], "")| == 0
  {
    if |lines| == 0 then Err("Cannot read properties of undefined (reading 'join')")
    else if |Join(lines[|lines| - 1], "")| == 0 then
      var r := TrimTrailing(lines[..|lines| - 1]);
      assert forall i :: 0 <= i < |lines| - 1 ==> lines[..|lines| - 1][i] == lines[i];
      r
    else Ok(lines)
  }

  /** What every CSV row ends with: a comma and the species name. */
  function Suffix(species: string): string
  {
    "," + species
  }

  /** `convertToCsv(data, species)`, given the chunks that splitting `data`
      at its header lines produced. The rows are joined with `,species\n`
      after an empty row is appended, so the last row gets the suffix too. */
  function ConvertToCsv(chunks: seq<string>, species: string): (r: Result<string>)
    ensures r.Ok? ==> |Columns(chunks)| > 0
  {
    var columns := Columns(chunks);
    if |columns| == 0 then Err("Cannot read properties of undefined (reading 'length')")
    else
      var pushed :- Pushed(columns);
      var rows :- TrimTrailing(pushed);
      Ok(CsvText(rows, species))
  }

  /** `newLines.push([])` and `newLines.join(`,${species}\n`)`: each row
      is written as its values joined by commas (an array's string form),
      and the separator also follows the last row. */
  function CsvText(rows: seq<seq<string>>, species: string): string
  {
    var lines := seq(|rows|, i requires 0 <= i < |rows| => Join(rows[i], ","));
    Join(lines + [""], Suffix(species) + "\n")
  }

  /** A CSV line: the row's values joined by commas, then `,species`. */
  function Line(row: seq<string>, species: string): string
  {
    Join(row, ",") + Suffix(species)
  }

  /** Values that are all non-empty join to nothing exactly when there are none. */
  lemma JoinBlank(parts: seq<string>)
    requires forall j :: 0 <= j < |parts| ==> |parts[j]| > 0
    ensures |Join(parts, "")| == 0 <==> |parts| == 0
  {
    if |parts| > 1 {
      assert Join(parts, "") == parts[0] + "" + Join(parts[1..], "");
    }
  }

  /** Joining with `t + "\n"` after appending an empty piece puts `t` at the
      end of every piece and ends every one of them with a line break. */
  lemma {:induction false} JoinTerminated(xs: seq<string>, t: string)
    ensures Join(xs + [""], t + "\n")
      == Join(seq(|xs|, i requires 0 <= i < |xs| => xs[i] + t) + [""], "\n")
  {
    var ys := seq(|xs|, i requires 0 <= i < |xs| => xs[i] + t);
    if |xs| > 0 {
      JoinTerminated(xs[1..], t);
      assert (xs + [""])[1..] == xs[1..] + [""];
      assert (ys + [""])[1..] == ys[1..] + [""];
      assert ys[1..] == seq(|xs[1..]|, i requires 0 <= i < |xs[1..]| => xs[1..][i] + t);
      assert xs[0] + (t + "\n") == (xs[0] + t) + "\n";
    }
  }

  /** A join of at least one piece and a final empty piece ends with the separator. */
  lemma {:induction false} JoinEndsWith(xs: seq<string>, sep: string)
    requires |xs| > 0
    ensures |Join(xs + [""], sep)| >= |sep|
    ensures Join(xs + [""], sep)[|Join(xs + [""], sep)| - |sep|..] == sep
  {
    var j := Join(xs + [""], sep);
    assert (xs + [""])[1..] == xs[1..] + [""];
    if |xs| == 1 {
      assert j == xs[0] + sep + "";
    } else {
      JoinEndsWith(xs[1..], sep);
      var tail := Join(xs[1..] + [""], sep);
      assert j == (xs[0] + sep) + tail;
      assert j[|j| - |sep|..] == tail[|tail| - |sep|..];
    }
  }

  /** The table is usable: there is a first column, and no column has a
      non-empty value beyond the first column's last index. */
  predicate Aligned(columns: seq<seq<string>>)
  {
    |columns| > 0 && forall c :: 0 <= c < |columns| ==> Fits(columns[c], |columns[0]|)
  }

  /** The rows as pushed from an aligned table are the table's rows, and
      a row joins to nothing exactly when it is empty. */
  lemma PushedRows(columns: seq<seq<string>>)
    requires |columns| > 0
    ensures Pushed(columns).Ok? <==> Aligned(columns)
    ensures Pushed(columns).Ok? ==>
      |Pushed(columns).value| == |columns[0]|
      && forall i :: 0 <= i < |columns[0]| ==> Pushed(columns).value[i] == RowOf(columns, i)
  {
    var empty := EmptyRows(|columns[0]|);
    PushAllSpec(empty, columns);
    if PushAll(empty, columns).Ok? {
      var pushed := PushAll(empty, columns).value;
      forall i | 0 <= i < |columns[0]|
        ensures pushed[i] == RowOf(columns, i)
      {
        assert pushed[i] == [] + RowOf(columns, i);
      }
    }
  }

  /** The CSV text of some rows splits at its line breaks into the rows,
      each comma-joined and followed by `,species`, and a final empty piece. */
  lemma CsvLines(rows: seq<seq<string>>, species: string)
    requires '\n' !in species
    requires forall i, j :: 0 <= i < |rows| && 0 <= j < |rows[i]| ==> '\n' !in rows[i][j]
    ensures Split(CsvText(rows, species), '\n')
      == seq(|rows|, i requires 0 <= i < |rows| => Line(rows[i], species)) + [""]
  {
    var lines := seq(|rows|, i requires 0 <= i < |rows| => Join(rows[i], ","));
    JoinTerminated(lines, Suffix(species));
    var ys := seq(|rows|, i requires 0 <= i < |rows| => lines[i] + Suffix(species));
    forall i | 0 <= i < |rows|
      ensures '\n' !in ys[i] && ys[i] == Line(rows[i], species)
    {
      JoinFree(rows[i], ",", '\n');
    }
    SplitJoin(ys + [""], '\n');
  }

  /** The same for rows that are a prefix of a table's rows. */
  lemma TableLines(columns: seq<seq<string>>, rows: seq<seq<string>>, species: string)
    requires '\n' !in species && NoNewline(columns)
    requires forall i :: 0 <= i < |rows| ==> rows[i] == RowOf(columns, i)
    ensures Split(CsvText(rows, species), '\n')
      == seq(|rows|, i requires 0 <= i < |rows| => Line(RowOf(columns, i), species)) + [""]
  {
    forall i | 0 <= i < |rows|
      ensures forall j :: 0 <= j < |rows[i]| ==> '\n' !in rows[i][j]
    {
      RowOfCells(columns, i);
    }
    CsvLines(rows, species);
  }

  /** Some row of an aligned table has a value. */
  predicate HasRow(columns: seq<seq<string>>)
    requires |columns| > 0
  {
    exists i :: 0 <= i < |columns[0]| && |RowOf(columns, i)| > 0
  }

  /** Trimming rows whose values are all non-empty succeeds exactly when
      some row has a value, and then drops exactly the trailing empty rows. */
  lemma TrimNonEmpty(pushed: seq<seq<string>>)
    requires forall i, j :: 0 <= i < |pushed| && 0 <= j < |pushed[i]| ==> |pushed[i][j]| > 0
    ensures TrimTrailing(pushed).Ok? <==> exists i :: 0 <= i < |pushed| && |pushed[i]| > 0
    ensures TrimTrailing(pushed).Ok? ==>
      var rows := TrimTrailing(pushed).value;
      0 < |rows| <= |pushed|
      && (forall i :: 0 <= i < |rows| ==> rows[i] == pushed[i])
      && |pushed[|rows| - 1]| > 0
      && forall i :: |rows| <= i < |pushed| ==> |pushed[i]| == 0
  {
    forall i | 0 <= i < |pushed|
      ensures |Join(pushed[i], "")| == 0 <==> |pushed[i]| == 0
    {
      JoinBlank(pushed[i]);
    }
    if TrimTrailing(pushed).Ok? {
      var rows := TrimTrailing(pushed).value;
      assert rows == pushed[..|rows|];
      assert rows[|rows| - 1] == pushed[|rows| - 1];
    } else {
      assert forall i :: 0 <= i < |pushed| ==> |Join(pushed[i], "")| == 0;
    }
  }

  /** The rows of a pushed table hold only non-empty values. */
  lemma PushedCells(columns: seq<seq<string>>)
    requires |columns| > 0 && Pushed(columns).Ok?
    ensures var pushed := Pushed(columns).value;
      forall i, j :: 0 <= i < |pushed| && 0 <= j < |pushed[i]| ==> |pushed[i][j]| > 0
  {
    PushedRows(columns);
    var pushed := Pushed(columns).value;
    forall i | 0 <= i < |pushed|
      ensures forall j :: 0 <= j < |pushed[i]| ==> |pushed[i][j]| > 0
    {
      RowOfCells(columns, i);
    }
  }

  /** Trimming a table's rows succeeds exactly when some row has a value. */
  lemma TrimTableOk(columns: seq<seq<string>>)
    requires |columns| > 0 && Pushed(columns).Ok?
    ensures TrimTrailing(Pushed(columns).value).Ok? <==> HasRow(columns)
  {
    PushedRows(columns);
    PushedCells(columns);
    var pushed := Pushed(columns).value;
    TrimNonEmpty(pushed);
    if HasRow(columns) {
      var i :| 0 <= i < |columns[0]| && |RowOf(columns, i)| > 0;
      assert |pushed[i]| > 0;
    }
  }

  /** When trimming a table's rows succeeds, it leaves the rows up to the
      last one that has a value. */
  lemma TrimTable(columns: seq<seq<string>>)
    requires |columns| > 0 && Pushed(columns).Ok?
    requires TrimTrailing(Pushed(columns).value).Ok?
    ensures var rows := TrimTrailing(Pushed(columns).value).value;
      0 < |rows| <= |columns[0]|
      && (forall i :: 0 <= i < |rows| ==> rows[i] == RowOf(columns, i))
      && |rows[|rows| - 1]| > 0
      && forall i :: |rows| <= i < |columns[0]| ==> |RowOf(columns, i)| == 0
  {
    PushedRows(columns);
    PushedCells(columns);
    TrimNonEmpty(Pushed(columns).value);
  }

  /** The conversion succeeds exactly when the table is aligned and has a
      non-empty row. */
  lemma ConvertToCsvOk(chunks: seq<string>, species: string)
    ensures var columns := Columns(chunks);
      ConvertToCsv(chunks, species).Ok? <==> Aligned(columns) && HasRow(columns)
  {
    var columns := Columns(chunks);
    if |columns| > 0 {
      PushedRows(columns);
      if Pushed(columns).Ok? {
        TrimTableOk(columns);
      }
    }
  }

  /** The lines of a successful conversion are the rows up to the last
      non-empty one, each the comma-join of its values followed by
      `,species`, and the text ends with a line break; so there are at most
      as many lines as the first column has values. */
  lemma ConvertToCsvLines(chunks: seq<string>, species: string)
    requires '\n' !in species
    requires ConvertToCsv(chunks, species).Ok?
    ensures var columns := Columns(chunks);
      var pieces := Split(ConvertToCsv(chunks, species).value, '\n');
      var count := |pieces| - 1;
      0 < count <= |columns[0]|
      && |RowOf(columns, count - 1)| > 0
      && (forall i :: count <= i < |columns[0]| ==> |RowOf(columns, i)| == 0)
      && pieces == seq(count, i requires 0 <= i < count => Line(RowOf(columns, i), species)) + [""]
  {
    var columns := Columns(chunks);
    TrimTableOk(columns);
    TrimTable(columns);
    var rows := TrimTrailing(Pushed(columns).value).value;
    TableLines(columns, rows, species);
    var pieces := Split(ConvertToCsv(chunks, species).value, '\n');
    assert pieces == Split(CsvText(rows, species), '\n');
    assert |pieces| - 1 == |rows|;
  }

  /** Every successful conversion ends with `,species` and a line break. */
  lemma CsvEndsWithSpecies(chunks: seq<string>, species: string)
    requires ConvertToCsv(chunks, species).Ok?
    ensures var out := ConvertToCsv(chunks, species).value;
      |out| >= |Suffix(species) + "\n"| && out[|out| - |Suffix(species) + "\n"|..] == Suffix(species) + "\n"
  {
    var columns := Columns(chunks);
    var rows := TrimTrailing(Pushed(columns).value).value;
    var lines := seq(|rows|, i requires 0 <= i < |rows| => Join(rows[i], ","));
    assert CsvText(rows, species) == Join(lines + [""], Suffix(species) + "\n");
    JoinEndsWith(lines, Suffix(species) + "\n");
  }

  // ---------------------------------------------------------------------
  // `cleanDecimalPoints(data, species)`
  // ---------------------------------------------------------------------

  /** `data.split(/\r*\n/)`: the pieces between line breaks, where a line
      break may be preceded by any number of carriage returns. */
  function SplitLines(data: string): (lines: seq<string>)
    ensures |lines| == Count(data, '\n') + 1
    ensures forall i :: 0 <= i < |lines| ==> '\n' !in lines[i]
    ensures var pieces := Split(data, '\n');
      && |lines| == |pieces|
      && lines[|lines| - 1] == pieces[|pieces| - 1]
      && forall i :: 0 <= i < |lines| - 1 ==>
        && lines[i] <= pieces[i]
        && (|lines[i]| == 0 || lines[i][|lines[i]| - 1] != '\r')
        && forall k :: |lines[i]| <= k < |pieces[i]| ==> pieces[i][k] == '\r'
  {
    var pieces := Split(data, '\n');
    seq(|pieces|, i requires 0 <= i < |pieces| =>
      if i < |pieces| - 1 then DropTrailing(pieces[i], '\r') else pieces[i])
  }

  /** Text without carriage returns is split at its line breaks alone. */
  lemma SplitLinesPlain(data: string)
    requires '\r' !in data
    ensures SplitLines(data) == Split(data, '\n')
  {
    var pieces := Split(data, '\n');
    forall i | 0 <= i < |pieces|
      ensures SplitLines(data)[i] == pieces[i]
    {
      SplitPiecesOf(data, '\n', i);
      if i < |pieces| - 1 {
        var d := DropTrailing(pieces[i], '\r');
        if |d| < |pieces[i]| {
          assert pieces[i][|d|] == '\r';
        }
      }
    }
  }

  predicate NotDigit(c: char)
  {
    !IsDigit(c)
  }

  /** One line of `cleanDecimalPoints`: unless the line holds the species
      name (the header) or is empty once its first whitespace character is
      deleted, that whitespace character is deleted and then the first
      non-digit becomes a decimal point. The header test is a substring
      search, which is what `line.match(species)` does for a plain name. */
  function CleanLine(line: string, species: string): string
  {
    var stripped := RemoveFirstWhere(line, IsWhitespace);
    if |stripped| > 0 && !Contains(line, species) then ReplaceFirstWhere(stripped, NotDigit, '.')
    else line
  }

  /** Index into `line` of the `k`-th character once the character at `w` is deleted. */
  function Skip(k: nat, w: nat): nat
  {
    if k < w then k else k + 1
  }

  /** `line` without its character at `w`, or all of `line` if `w` is past its end. */
  function Without(line: string, w: nat): (r: string)
    ensures |r| == if w < |line| then |line| - 1 else |line|
  {
    var n := if w < |line| then |line| - 1 else |line|;
    seq(n, k requires 0 <= k < n => line[Skip(k, w)])
  }

  /** `k` is the position of the first non-digit of `s`. */
  predicate FirstNonDigitAt(s: string, k: nat)
  {
    k < |s| && !IsDigit(s[k]) && forall j :: 0 <= j < k ==> IsDigit(s[j])
  }

  /** Deleting the first match of a one-character pattern is deleting the
      character at its position. */
  lemma RemoveFirstIsWithout(line: string, p: char -> bool)
    ensures RemoveFirstWhere(line, p) == Without(line, FirstWhere(line, p))
  {
    var w := FirstWhere(line, p);
    var s := RemoveFirstWhere(line, p);
    var t := Without(line, w);
    if w < |line| {
      assert s == line[..w] + line[w + 1..];
      forall k | 0 <= k < |t|
        ensures s[k] == t[k]
      {
        if k >= w {
          assert s[k] == line[w + 1..][k - w];
        }
      }
    } else {
      assert forall k :: 0 <= k < |t| ==> t[k] == line[k];
    }
    assert s == t;
  }

  /** `line.replace(/\s/, '')` deletes the first whitespace character. */
  lemma StripDeletesFirstWhitespace(line: string)
    ensures RemoveFirstWhere(line, IsWhitespace) == Without(line, FirstWhere(line, IsWhitespace))
  {
    RemoveFirstIsWithout(line, IsWhitespace);
  }

  /** `s.replace(/[^\d]/, '.')` turns the first non-digit, and only it, into `.`. */
  lemma ReplaceFirstNonDigit(s: string)
    ensures var r := ReplaceFirstWhere(s, NotDigit, '.');
      |r| == |s| && forall k :: 0 <= k < |s| ==> r[k] == if FirstNonDigitAt(s, k) then '.' else s[k]
  {
    var d := FirstWhere(s, NotDigit);
    forall k | 0 <= k < |s|
      ensures FirstNonDigitAt(s, k) <==> k == d
    {
      assert forall j :: 0 <= j < d ==> !NotDigit(s[j]);
    }
  }

  /** A cleaned line is the header or the blank line unchanged. Any other
      line loses its first whitespace character, if it has one, and then
      the first non-digit of what is left, if there is one, becomes `.`;
      every other character keeps its place and order. */
  lemma CleanLineEdits(line: string, species: string)
    ensures Contains(line, species) ==> CleanLine(line, species) == line
    ensures var w := FirstWhere(line, IsWhitespace);
      |Without(line, w)| == 0 ==> CleanLine(line, species) == line
    ensures var w := FirstWhere(line, IsWhitespace);
      var t := Without(line, w);
      var r := CleanLine(line, species);
      |t| > 0 && !Contains(line, species) ==>
        (forall k :: 0 <= k < w && k < |line| ==> !IsWhitespace(line[k]))
        && |r| == |t|
        && forall k :: 0 <= k < |t| ==> r[k] == if FirstNonDigitAt(t, k) then '.' else t[k]
  {
    StripDeletesFirstWhitespace(line);
    ReplaceFirstNonDigit(RemoveFirstWhere(line, IsWhitespace));
  }

  /** `cleanDecimalPoints(data, species)`: every line cleaned, joined again
      with plain line breaks. */
  function CleanDecimalPoints(data: string, species: string): string
  {
    var lines := SplitLines(data);
    Join(seq(|lines|, i requires 0 <= i < |lines| => CleanLine(lines[i], species)), "\n")
  }

  /** No editing step of a line introduces a line break. */
  lemma CleanLineNoNewline(line: string, species: string)
    requires '\n' !in line
    ensures '\n' !in CleanLine(line, species)
  {
    var s := RemoveFirstWhere(line, IsWhitespace);
    RemoveKeepsOut(line, IsWhitespace, '\n');
    ReplaceKeepsOut(s, NotDigit, '.', '\n');
  }

  /** The cleaned text has exactly the lines the input was split into, in
      order, each one cleaned on its own: one line per input line break,
      plus one. */
  lemma CleanKeepsLines(data: string, species: string)
    ensures Split(CleanDecimalPoints(data, species), '\n')
      == seq(|SplitLines(data)|, i requires 0 <= i < |SplitLines(data)| => CleanLine(SplitLines(data)[i], species))
    ensures |Split(CleanDecimalPoints(data, species), '\n')| == Count(data, '\n') + 1
  {
    var lines := SplitLines(data);
    var cleaned := seq(|lines|, i requires 0 <= i < |lines| => CleanLine(lines[i], species));
    forall i | 0 <= i < |cleaned|
      ensures '\n' !in cleaned[i]
    {
      CleanLineNoNewline(lines[i], species);
    }
    SplitJoin(cleaned, '\n');
  }
}
