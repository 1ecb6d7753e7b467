/** The tabular container of the iris k-NN analysis (`utils/dataframe.ts`):
    reading CSV text into rows of cells, resolving column headers to
    positions, and the three table operations `select`, `groupBy` and
    `transpose`. The containers are values here: an operation returns a new
    container and never alters its argument. */
module DataFrame {
  import opened Results
  import opened Text
  import opened Shuffles

  /** A cell or a header: after parsing, a value is a number or a string. */
  datatype Value = Str(text: string) | Num(x: real)

  /** JavaScript truthiness of a value (`NaN` is not modelled). */
  predicate Truthy(v: Value)
  {
    match v
    case Str(s) => s != ""
    case Num(x) => x != 0.0
  }

  /** One line of a table. */
  type Row = seq<Value>

  /** A table: one header per column and the rows of cells. */
  datatype Container = Container(headers: seq<Value>, data: seq<Row>)

  // Reading CSV text.

  /** `input.replace(/\r*\n$/, '')`: one final line feed goes, together with
      the carriage returns right before it. */
  function StripTrailingNewline(input: string): (r: string)
    ensures |input| == 0 || input[|input| - 1] != '\n' ==> r == input
    ensures |input| > 0 && input[|input| - 1] == '\n' ==>
      && r <= input
      && (|r| == 0 || r[|r| - 1] != '\r')
      && forall i :: |r| <= i < |input| - 1 ==> input[i] == '\r'
  {
    if |input| > 0 && input[|input| - 1] == '\n' then DropTrailing(input[..|input| - 1], '\r')
    else input
  }

  /** The parse of one cell. `toNumber` is JavaScript's `Number(text)`, with
      `None` for `NaN`. A cell becomes a number only when it is not blank
      after removing its first whitespace character and its numeric value
      is truthy: `"0"` and `"abc"` stay strings. */
  function ParseCell(text: string, toNumber: string -> Option<real>): (v: Value)
    ensures v == Str(text) || (toNumber(text).Some? && v == Num(toNumber(text).value))
    ensures v.Num? <==>
      && RemoveFirstWhere(text, IsWhitespace) != ""
      && toNumber(text).Some?
      && toNumber(text).value != 0.0
  {
    var notEmpty := RemoveFirstWhere(text, IsWhitespace) != "";
    if notEmpty && toNumber(text).Some? && toNumber(text).value != 0.0 then Num(toNumber(text).value)
    else Str(text)
  }

  /** `line.split(',')` with each piece parsed. */
  function ParseLine(line: string, toNumber: string -> Option<real>): (row: seq<Value>)
    ensures |row| == Count(line, ',') + 1
    ensures forall j :: 0 <= j < |row| ==> row[j] == ParseCell(Split(line, ',')[j], toNumber)
  {
    var cells := Split(line, ',');
    seq(|cells|, j requires 0 <= j < |cells| => ParseCell(cells[j], toNumber))
  }

  /** The headers a fresh container gets: the column positions of its first row. */
  function DefaultHeaders(n: nat): (h: seq<Value>)
    ensures |h| == n && forall i :: 0 <= i < n ==> h[i] == Num(i as real)
  {
    seq(n, i requires 0 <= i < n => Num(i as real))
  }

  /** `readData` with a string: a row per line of the text without its
      final line break, and a cell per comma-separated piece of a line. A
      string always yields at least one row, so the headers are defined. */
  function ReadCsv(input: string, toNumber: string -> Option<real>): (c: Container)
    ensures |c.data| == Count(StripTrailingNewline(input), '\n') + 1
    ensures forall i :: 0 <= i < |c.data| ==>
      |c.data[i]| == Count(Split(StripTrailingNewline(input), '\n')[i], ',') + 1
    ensures c.headers == DefaultHeaders(|c.data[0]|)
  {
    var lines := Split(StripTrailingNewline(input), '\n');
    var rows := seq(|lines|, i requires 0 <= i < |lines| => ParseLine(lines[i], toNumber));
    Container(DefaultHeaders(|rows[0]|), rows)
  }

  /** For every reading of numbers: row `i` holds one cell per comma-separated
      piece of line `i` of the text without its final line break, each cell
      the parse of its piece, and the pieces joined back with commas and line
      feeds rebuild that text. */
  lemma ReadCsvRoundTrip(input: string, toNumber: string -> Option<real>)
    ensures var text := StripTrailingNewline(input);
      var lines := Split(text, '\n');
      var c := ReadCsv(input, toNumber);
      && |c.data| == |lines|
      && (forall i :: 0 <= i < |lines| ==> |c.data[i]| == |Split(lines[i], ',')|)
      && (forall i, j :: 0 <= i < |lines| && 0 <= j < |Split(lines[i], ',')| ==>
            c.data[i][j] == ParseCell(Split(lines[i], ',')[j], toNumber))
      && Join(seq(|lines|, i requires 0 <= i < |lines| => Join(Split(lines[i], ','), [','])), ['\n']) == text
  {
    var text := StripTrailingNewline(input);
    var lines := Split(text, '\n');
    var joined := seq(|lines|, i requires 0 <= i < |lines| => Join(Split(lines[i], ','), [',']));
    forall i | 0 <= i < |lines|
      ensures joined[i] == lines[i]
    {
      JoinSplit(lines[i], ',');
    }
    assert joined == lines;
    JoinSplit(text, '\n');
  }

  /** When no cell is read as a number, joining the cells of each row with
      commas and the rows with line feeds rebuilds the text without its final
      line break. */
  lemma ReadCsvStringsRoundTrip(input: string, toNumber: string -> Option<real>)
    requires forall t :: toNumber(t) == None
    ensures var c := ReadCsv(input, toNumber);
      && (forall i, j :: 0 <= i < |c.data| && 0 <= j < |c.data[i]| ==> c.data[i][j].Str?)
      && Join(seq(|c.data|, i requires 0 <= i < |c.data| =>
           Join(seq(|c.data[i]|, j requires 0 <= j < |c.data[i]| => c.data[i][j].text), [','])), ['\n'])
         == StripTrailingNewline(input)
  {
    var text := StripTrailingNewline(input);
    var c := ReadCsv(input, toNumber);
    var lines := Split(text, '\n');
    var joined := seq(|c.data|, i requires 0 <= i < |c.data| =>
      Join(seq(|c.data[i]|, j requires 0 <= j < |c.data[i]| => c.data[i][j].text), [',']));
    forall i | 0 <= i < |c.data|
      ensures joined[i] == lines[i]
    {
      var cells := seq(|c.data[i]|, j requires 0 <= j < |c.data[i]| => c.data[i][j].text);
      assert cells == Split(lines[i], ',');
      JoinSplit(lines[i], ',');
    }
    assert joined == lines;
    JoinSplit(text, '\n');
  }

  /** `readData` with an array of rows (deep-copied, which leaves numbers
      and strings as they are): an empty table has no first row to take the
      headers from, and the source fails with a `TypeError`. */
  function FromRows(rows: seq<seq<Value>>): (r: Result<Container>)
    ensures r.Ok? <==> |rows| > 0
    ensures r.Ok? ==> r.value.data == rows && r.value.headers == DefaultHeaders(|rows[0]|)
  {
    if |rows| == 0 then Err("Cannot read properties of undefined (reading 'map')")
    else Ok(Container(DefaultHeaders(|rows[0]|), rows))
  }

  // Resolving headers.

  /** `Number.isInteger(x)`. */
  predicate IsInteger(x: real)
  {
    x.Floor as real == x
  }

  /** `s.indexOf(v)`: the first position of `v`, or `-1`. */
  function IndexOf(s: seq<Value>, v: Value): (i: int)
    ensures -1 <= i < |s|
    ensures i == -1 <==> v !in s
    ensures 0 <= i ==> s[i] == v && forall j :: 0 <= j < i ==> s[j] != v
  {
    if |s| == 0 then -1
    else if s[0] == v then 0
    else
      var i := IndexOf(s[1..], v);
      if i == -1 then -1 else i + 1
  }

  /** An integer passes through as a column position; anything else is
      looked up among the headers. */
  function ResolveKey(key: Value, reference: seq<Value>): int
  {
    if key.Num? && IsInteger(key.x) then key.x.Floor else IndexOf(reference, key)
  }

  /** A resolved index the source accepts: it names an existing header whose
      value is truthy. */
  predicate Resolves(index: int, reference: seq<Value>)
  {
    0 <= index < |reference| && Truthy(reference[index])
  }

  /** `indices.reduce((acc, index) => acc || !reference[index], false)`. */
  function AnyInvalid(indices: seq<int>, reference: seq<Value>, acc: bool): (invalid: bool)
    ensures invalid <==> acc || exists i :: 0 <= i < |indices| && !Resolves(indices[i], reference)
    decreases |indices|
  {
    if |indices| == 0 then acc
    else
      var ok := Resolves(indices[0], reference);
      assert forall i :: 1 <= i < |indices| ==> indices[i] == indices[1..][i - 1];
      AnyInvalid(indices[1..], reference, acc || !ok)
  }

  /** Places written after the decimal point of a fraction before its
      expansion is cut off. */
  const FractionPlaces: nat := 20

  /** The decimal digits of a fraction `0 <= f < 1`, up to `places` of them,
      without trailing zeros. */
  function FractionDigits(f: real, places: nat): (t: string)
    requires 0.0 <= f < 1.0
    ensures |t| <= places && forall i :: 0 <= i < |t| ==> IsDigit(t[i])
    ensures f == 0.0 ==> t == ""
    decreases places
  {
    if f == 0.0 || places == 0 then ""
    else
      var d := (f * 10.0).Floor;
      [DigitChar(d)] + FractionDigits(f * 10.0 - d as real, places - 1)
  }

  /** `String(x)` for a number of magnitude between `1e-6` and `1e21`: an
      integer in plain decimal, otherwise the integer part, a point and the
      decimal places. Outside that range JavaScript switches to exponent
      form, which is not modelled: the plain decimal is written there too. */
  function NumberText(x: real): string
  {
    if IsInteger(x) then IntText(x.Floor)
    else
      var a := if x < 0.0 then -x else x;
      var w := a.Floor;
      (if x < 0.0 then "-" else "") + NatText(w) + "." + FractionDigits(a - w as real, FractionPlaces)
  }

  /** A key as template literals write it. */
  function ValueText(v: Value): string
  {
    match v
    case Str(s) => s
    case Num(x) => NumberText(x)
  }

  /** `${keys}`: an array in a template literal is its elements' text joined
      with commas. */
  function KeysText(keys: seq<Value>): string
  {
    Join(seq(|keys|, i requires 0 <= i < |keys| => ValueText(keys[i])), ",")
  }

  /** `convertToIndices(headers, reference)`: fails when any key resolves to
      a missing header or to a header whose value is falsy; the message lists
      the keys. */
  function ConvertToIndices(keys: seq<Value>, reference: seq<Value>): (r: Result<seq<int>>)
    ensures r.Ok? <==> forall i :: 0 <= i < |keys| ==> Resolves(ResolveKey(keys[i], reference), reference)
    ensures r.Ok? ==> |r.value| == |keys|
    ensures r.Ok? ==> forall i :: 0 <= i < |keys| ==> r.value[i] == ResolveKey(keys[i], reference)
    ensures r.Ok? ==> forall i :: 0 <= i < |keys| ==> 0 <= r.value[i] < |reference|
    ensures r.Err? ==> r.message == "Invalid index or header found in " + KeysText(keys) + "."
  {
    var indices := seq(|keys|, i requires 0 <= i < |keys| => ResolveKey(keys[i], reference));
    assert forall i :: 0 <= i < |keys| ==> indices[i] == ResolveKey(keys[i], reference);
    if AnyInvalid(indices, reference, false) then Err("Invalid index or header found in " + KeysText(keys) + ".")
    else Ok(indices)
  }

  /** A header name resolves to the position of its first occurrence. */
  lemma ConvertFindsNames(keys: seq<Value>, reference: seq<Value>, i: nat)
    requires i < |keys| && keys[i].Str? && ConvertToIndices(keys, reference).Ok?
    ensures var p := ConvertToIndices(keys, reference).value[i];
      0 <= p < |reference| && reference[p] == keys[i] && keys[i] !in reference[..p]
  {
  }

  /** With the default headers, a numeric position other than 0 is accepted
      exactly when it names a column. */
  lemma DefaultHeadersPositions(n: nat, k: int)
    requires k != 0
    ensures ConvertToIndices([Num(k as real)], DefaultHeaders(n)).Ok? <==> 0 < k < n
  {
    assert (k as real).Floor == k;
  }

  /** With the default headers, column 0 cannot be selected by its position:
      its header is the number 0, which is falsy, and the source throws. */
  lemma DefaultHeadersRejectZero(n: nat)
    ensures ConvertToIndices([Num(0.0)], DefaultHeaders(n)).Err?
  {
    assert ResolveKey(Num(0.0), DefaultHeaders(n)) == 0;
  }

  /** The message names every key, the valid ones included. */
  lemma ConvertMessage()
    ensures ConvertToIndices([Str("petal"), Num(7.0), Num(-2.25)], DefaultHeaders(4))
      == Err("Invalid index or header found in petal,7,-2.25.")
  {
    assert ResolveKey(Num(7.0), DefaultHeaders(4)) == 7;
    assert NumberText(7.0) == "7";
    assert (2.25).Floor == 2 && (0.25 * 10.0).Floor == 2 && (0.5 * 10.0).Floor == 5;
    assert FractionDigits(0.0, FractionPlaces - 2) == "";
    assert FractionDigits(0.5, FractionPlaces - 1) == "5";
    assert FractionDigits(0.25, FractionPlaces) == "25";
    assert NatText(2) == "2";
    assert NumberText(-2.25) == "-2.25";
    var keys := [Str("petal"), Num(7.0), Num(-2.25)];
    assert seq(|keys|, i requires 0 <= i < |keys| => ValueText(keys[i])) == ["petal", "7", "-2.25"];
    var texts: seq<string> := ["petal", "7", "-2.25"];
    assert texts[1..][1..] == ["-2.25"];
    assert Join(texts[1..], ",") == "7,-2.25";
    assert KeysText(keys) == "petal,7,-2.25";
  }

  // Selecting columns.

  /** `s.filter((value, index) => ~indices.indexOf(index))`, numbering the
      elements of `s` from `offset`. */
  function KeepAt<T>(s: seq<T>, indices: seq<int>, offset: nat): (r: seq<T>)
    ensures |r| <= |s|
    decreases |s|
  {
    if |s| == 0 then []
    else (if offset in indices then [s[0]] else []) + KeepAt(s[1..], indices, offset + 1)
  }

  /** The positions `j < n` with `offset + j` in `indices`, in increasing order. */
  function SelectedFrom(n: nat, indices: seq<int>, offset: nat): (p: seq<nat>)
    ensures forall k :: 0 <= k < |p| ==> p[k] < n
    decreases n
  {
    if n == 0 then []
    else
      var tail := SelectedFrom(n - 1, indices, offset + 1);
      (if offset in indices then [0] else []) + seq(|tail|, k requires 0 <= k < |tail| => tail[k] + 1)
  }

  lemma {:induction false} KeepAtGather<T>(s: seq<T>, indices: seq<int>, offset: nat)
    ensures KeepAt(s, indices, offset) == Gather(s, SelectedFrom(|s|, indices, offset))
    decreases |s|
  {
    if |s| > 0 {
      KeepAtGather(s[1..], indices, offset + 1);
    }
  }

  lemma {:induction false} SelectedFromShift(n: nat, indices: seq<int>, offset: nat)
    ensures forall k :: 0 <= k < |SelectedFrom(n, indices, offset)| ==>
      offset + SelectedFrom(n, indices, offset)[k] in indices
    ensures forall j :: 0 <= j < n && offset + j in indices ==> j in SelectedFrom(n, indices, offset)
    ensures forall k, l :: 0 <= k < l < |SelectedFrom(n, indices, offset)| ==>
      SelectedFrom(n, indices, offset)[k] < SelectedFrom(n, indices, offset)[l]
    decreases n
  {
    if n > 0 {
      SelectedFromShift(n - 1, indices, offset + 1);
      var tail := SelectedFrom(n - 1, indices, offset + 1);
      var shifted := seq(|tail|, k requires 0 <= k < |tail| => tail[k] + 1);
      var p := SelectedFrom(n, indices, offset);
      forall j | 0 <= j < n && offset + j in indices
        ensures j in p
      {
        if j > 0 {
          assert (offset + 1) + (j - 1) in indices;
          assert j - 1 in tail;
          var k :| 0 <= k < |tail| && tail[k] == j - 1;
          assert shifted[k] == j;
        }
      }
    }
  }

  /** The cells a selection keeps from a row: those at the positions in
      `indices`, read left to right in the row's own order. */
  lemma KeepAtSpec<T>(s: seq<T>, indices: seq<int>)
    ensures var p := SelectedFrom(|s|, indices, 0);
      && KeepAt(s, indices, 0) == Gather(s, p)
      && (forall k, l :: 0 <= k < l < |p| ==> p[k] < p[l])
      && (forall j :: 0 <= j < |s| ==> (j in p <==> j in indices))
  {
    KeepAtGather(s, indices, 0);
    SelectedFromShift(|s|, indices, 0);
  }

  /** `select(headers)`: the columns whose positions the keys resolve to, in
      the table's column order. Fails when a key does not resolve, and when
      the table has no rows, since the copy it starts from is a fresh
      container read from those rows. */
  function Select(c: Container, keys: seq<Value>): (r: Result<Container>)
    ensures r.Ok? <==> ConvertToIndices(keys, c.headers).Ok? && |c.data| > 0
    ensures r.Ok? ==> |r.value.data| == |c.data|
    ensures r.Ok? ==>
      var indices := ConvertToIndices(keys, c.headers).value;
      && r.value.headers == Gather(c.headers, SelectedFrom(|c.headers|, indices, 0))
      && forall i :: 0 <= i < |c.data| ==>
           r.value.data[i] == Gather(c.data[i], SelectedFrom(|c.data[i]|, indices, 0))
  {
    var indices :- ConvertToIndices(keys, c.headers);
    var copy :- FromRows(c.data);
    KeepAtGather(c.headers, indices, 0);
    var rows := seq(|copy.data|, i requires 0 <= i < |copy.data| => KeepAt(copy.data[i], indices, 0));
    assert forall i :: 0 <= i < |c.data| ==> rows[i] == Gather(c.data[i], SelectedFrom(|c.data[i]|, indices, 0)) by {
      forall i | 0 <= i < |c.data| {
        KeepAtGather(c.data[i], indices, 0);
      }
    }
    Ok(Container(KeepAt(c.headers, indices, 0), rows))
  }

  /** The order of the keys does not matter: selecting the same columns in
      any order gives the same table. */
  lemma SelectIgnoresKeyOrder(c: Container, keys: seq<Value>, keys': seq<Value>)
    requires ConvertToIndices(keys, c.headers).Ok? && ConvertToIndices(keys', c.headers).Ok?
    requires forall j :: j in ConvertToIndices(keys, c.headers).value <==> j in ConvertToIndices(keys', c.headers).value
    ensures Select(c, keys) == Select(c, keys')
  {
    var a := ConvertToIndices(keys, c.headers).value;
    var b := ConvertToIndices(keys', c.headers).value;
    if |c.data| > 0 {
      var r, r' := Select(c, keys).value, Select(c, keys').value;
      SameSelection(|c.headers|, a, b, 0);
      forall i | 0 <= i < |c.data|
        ensures r.data[i] == r'.data[i]
      {
        SameSelection(|c.data[i]|, a, b, 0);
      }
      assert r.data == r'.data;
    }
  }

  lemma {:induction false} SameSelection(n: nat, a: seq<int>, b: seq<int>, offset: nat)
    requires forall j :: j in a <==> j in b
    ensures SelectedFrom(n, a, offset) == SelectedFrom(n, b, offset)
    decreases n
  {
    if n > 0 {
      SameSelection(n - 1, a, b, offset + 1);
    }
  }

  // Grouping rows.

  /** The rows of `s` that satisfy `p`, in their order. */
  function Filter(s: seq<Row>, p: Row -> bool): (r: seq<Row>)
    ensures |r| <= |s|
    ensures forall k :: 0 <= k < |r| ==> p(r[k])
    ensures forall x :: x in r <==> x in s && p(x)
    decreases |s|
  {
    if |s| == 0 then []
    else
      var rest := Filter(s[1..], p);
      assert s == [s[0]] + s[1..];
      if p(s[0]) then [s[0]] + rest else rest
  }

  /** Filtering distributes over concatenation, which is to say it keeps the order. */
  lemma {:induction false} FilterAppend(a: seq<Row>, b: seq<Row>, p: Row -> bool)
    ensures Filter(a + b, p) == Filter(a, p) + Filter(b, p)
    decreases |a|
  {
    if |a| == 0 {
      assert a + b == b;
    } else {
      assert (a + b)[0] == a[0] && (a + b)[1..] == a[1..] + b;
      FilterAppend(a[1..], b, p);
    }
  }

  /** A filter keeps every element that satisfies the test as often as it occurs. */
  lemma {:induction false} FilterMultiplicity(s: seq<Row>, p: Row -> bool, x: Row)
    ensures multiset(Filter(s, p))[x] == if p(x) then multiset(s)[x] else 0
    decreases |s|
  {
    if |s| > 0 {
      FilterMultiplicity(s[1..], p, x);
      assert s == [s[0]] + s[1..];
    }
  }

  /** The row's cell at the position of the `i`-th key holds the `i`-th
      feature. A position past the end of the row reads `undefined`, which
      equals no feature. */
  predicate MatchesAt(row: seq<Value>, indices: seq<int>, features: seq<Value>, i: nat)
    requires i < |features|
  {
    i < |indices| && 0 <= indices[i] < |row| && row[indices[i]] == features[i]
  }

  /** `features.reduce((acc, feature, index) => acc && feature === row[indices[index]], true)`,
      from the `i`-th feature on. */
  function MatchFold(row: seq<Value>, indices: seq<int>, features: seq<Value>, i: nat, acc: bool): (m: bool)
    requires i <= |features|
    ensures m <==> acc && forall k :: i <= k < |features| ==> MatchesAt(row, indices, features, k)
    decreases |features| - i
  {
    if i == |features| then acc
    else MatchFold(row, indices, features, i + 1, acc && MatchesAt(row, indices, features, i))
  }

  /** `groupBy(headers, features)`: the rows whose cell in the column of the
      `i`-th key equals the `i`-th feature, for every `i`; the headers are
      copied. Fails as `select` does. */
  function GroupBy(c: Container, keys: seq<Value>, features: seq<Value>): (r: Result<Container>)
    ensures r.Ok? <==> ConvertToIndices(keys, c.headers).Ok? && |c.data| > 0
    ensures r.Ok? ==> r.value.headers == c.headers
    ensures r.Ok? ==>
      var indices := ConvertToIndices(keys, c.headers).value;
      && (forall row :: row in r.value.data <==>
            row in c.data && forall i :: 0 <= i < |features| ==> MatchesAt(row, indices, features, i))
  {
    var indices :- ConvertToIndices(keys, c.headers);
    var copy :- FromRows(c.data);
    Ok(Container(c.headers, Filter(copy.data, row => MatchFold(row, indices, features, 0, true))))
  }

  /** No features: every row is kept, in order. */
  lemma GroupByNoFeatures(c: Container, keys: seq<Value>)
    requires ConvertToIndices(keys, c.headers).Ok? && |c.data| > 0
    ensures GroupBy(c, keys, []) == Ok(c)
  {
    var indices := ConvertToIndices(keys, c.headers).value;
    FilterAll(c.data, row => MatchFold(row, indices, [], 0, true));
  }

  lemma {:induction false} FilterAll(s: seq<Row>, p: Row -> bool)
    requires forall x :: p(x)
    ensures Filter(s, p) == s
    decreases |s|
  {
    if |s| > 0 {
      FilterAll(s[1..], p);
    }
  }

  /** A group keeps each matching row as often as the table holds it. */
  lemma GroupByRows(c: Container, keys: seq<Value>, features: seq<Value>, row: seq<Value>)
    requires ConvertToIndices(keys, c.headers).Ok? && |c.data| > 0
    ensures var indices := ConvertToIndices(keys, c.headers).value;
      multiset(GroupBy(c, keys, features).value.data)[row] ==
        if forall i :: 0 <= i < |features| ==> MatchesAt(row, indices, features, i)
        then multiset(c.data)[row] else 0
  {
    var indices := ConvertToIndices(keys, c.headers).value;
    FilterMultiplicity(c.data, row => MatchFold(row, indices, features, 0, true), row);
  }

  /** Grouping keeps the order of the rows: the group of two stacked tables
      is the stacked groups. */
  lemma GroupByStacks(headers: seq<Value>, a: seq<Row>, b: seq<Row>, keys: seq<Value>, features: seq<Value>)
    requires ConvertToIndices(keys, headers).Ok? && |a| > 0 && |b| > 0
    ensures GroupBy(Container(headers, a + b), keys, features).value.data ==
      GroupBy(Container(headers, a), keys, features).value.data
        + GroupBy(Container(headers, b), keys, features).value.data
  {
    var indices := ConvertToIndices(keys, headers).value;
    FilterAppend(a, b, row => MatchFold(row, indices, features, 0, true));
  }

  // Transposing.

  /** The `j`-th cells of the rows, top to bottom; a row too short has none. */
  function Column(rows: seq<seq<Value>>, j: nat): (col: seq<Value>)
    ensures |col| <= |rows|
    ensures (forall i :: 0 <= i < |rows| ==> j < |rows[i]|) ==> |col| == |rows|
    decreases |rows|
  {
    if |rows| == 0 then []
    else (if j < |rows[0]| then [rows[0][j]] else []) + Column(rows[1..], j)
  }

  /** The names an empty object literal already carries, inherited from
      `Object.prototype`. Each names a function or an object, so it is
      truthy, and none has a `push` method. */
  const PrototypeNames: set<string> := {
    "constructor", "__proto__", "__defineGetter__", "__defineSetter__",
    "__lookupGetter__", "__lookupSetter__", "hasOwnProperty", "isPrototypeOf",
    "propertyIsEnumerable", "toLocaleString", "toString", "valueOf"
  }

  /** A header that an empty object already answers with a truthy value. */
  predicate Inherited(h: Value)
  {
    h.Str? && h.text in PrototypeNames
  }

  /** `headers[index]` used as a key: past the end it is `undefined`, which
      names the key "undefined". */
  function HeaderAt(headers: seq<Value>, k: nat): Value
  {
    if k < |headers| then headers[k] else Str("undefined")
  }

  /** `headers.forEach(header => { if (!transposed[header]) transposed[header] = []; })`
      on an empty object: every header gets an empty list of its own, except
      the inherited names, which the test already finds truthy. */
  function EmptyColumns(headers: seq<Value>): (m: map<Value, seq<Value>>)
    ensures m.Keys == set h | h in headers && !Inherited(h)
    ensures forall h :: h in m ==> m[h] == []
  {
    if |headers| == 0 then map[]
    else
      var m := EmptyColumns(headers[..|headers| - 1]);
      var h := headers[|headers| - 1];
      assert headers == headers[..|headers| - 1] + [h];
      if Inherited(h) then m else m[h := []]
  }

  /** `row.forEach((feature, index) => transposed[headers[index]].push(feature))`
      from the `k`-th cell on. A cell whose key has a list of its own is
      appended to it; an inherited key has no `push` method, and any other
      key holds `undefined`; both throw. */
  function PushRow(m: map<Value, seq<Value>>, headers: seq<Value>, row: seq<Value>, k: nat): (r: Result<map<Value, seq<Value>>>)
    requires k <= |row|
    ensures r.Ok? <==> forall k' :: k <= k' < |row| ==> HeaderAt(headers, k') in m
    ensures r.Ok? ==> r.value.Keys == m.Keys
    decreases |row| - k
  {
    if k == |row| then Ok(m)
    else
      var h := HeaderAt(headers, k);
      if h in m then PushRow(m[h := m[h] + [row[k]]], headers, row, k + 1)
      else if Inherited(h) then Err("transposed[headers[index]].push is not a function")
      else Err("Cannot read properties of undefined (reading 'push')")
  }

  /** All rows pushed, the first row first; the first failure ends it. */
  function PushRows(m: map<Value, seq<Value>>, headers: seq<Value>, rows: seq<seq<Value>>): (r: Result<map<Value, seq<Value>>>)
    ensures r.Ok? <==> forall i, k :: 0 <= i < |rows| && 0 <= k < |rows[i]| ==> HeaderAt(headers, k) in m
    ensures r.Ok? ==> r.value.Keys == m.Keys
    decreases |rows|
  {
    if |rows| == 0 then Ok(m)
    else
      assert forall i :: 1 <= i < |rows| ==> rows[i] == rows[1..][i - 1];
      var m1 :- PushRow(m, headers, rows[0], 0);
      PushRows(m1, headers, rows[1..])
  }

  /** `transpose()`: each header's list holds the cells filed under it. It
      throws as soon as a cell's key has no list of its own: an inherited
      name, or a position past the headers when no header is "undefined". */
  function Transpose(c: Container): (r: Result<map<Value, seq<Value>>>)
    ensures r.Ok? <==> forall i, k :: 0 <= i < |c.data| && 0 <= k < |c.data[i]| ==>
      HeaderAt(c.headers, k) in c.headers && !Inherited(HeaderAt(c.headers, k))
    ensures r.Ok? ==> r.value.Keys == set h | h in c.headers && !Inherited(h)
  {
    PushRows(EmptyColumns(c.headers), c.headers, c.data)
  }

  /** The cells of `row` from position `k` on whose key is `h`, in order. */
  function Filed(headers: seq<Value>, row: seq<Value>, h: Value, k: nat): seq<Value>
    requires k <= |row|
    decreases |row| - k
  {
    if k == |row| then []
    else (if HeaderAt(headers, k) == h then [row[k]] else []) + Filed(headers, row, h, k + 1)
  }

  /** The cells of all rows whose key is `h`, row by row. */
  function FiledAll(headers: seq<Value>, rows: seq<seq<Value>>, h: Value): seq<Value>
    decreases |rows|
  {
    if |rows| == 0 then [] else Filed(headers, rows[0], h, 0) + FiledAll(headers, rows[1..], h)
  }

  lemma {:induction false} PushRowLists(m: map<Value, seq<Value>>, headers: seq<Value>, row: seq<Value>, k: nat, h: Value)
    requires k <= |row| && PushRow(m, headers, row, k).Ok? && h in m
    ensures PushRow(m, headers, row, k).value[h] == m[h] + Filed(headers, row, h, k)
    decreases |row| - k
  {
    if k < |row| {
      var g := HeaderAt(headers, k);
      var m1 := m[g := m[g] + [row[k]]];
      PushRowLists(m1, headers, row, k + 1, h);
      assert m1[h] == m[h] + (if g == h then [row[k]] else []);
    }
  }

  lemma {:induction false} PushRowsLists(m: map<Value, seq<Value>>, headers: seq<Value>, rows: seq<seq<Value>>, h: Value)
    requires PushRows(m, headers, rows).Ok? && h in m
    ensures PushRows(m, headers, rows).value[h] == m[h] + FiledAll(headers, rows, h)
    decreases |rows|
  {
    if |rows| > 0 {
      var m1 := PushRow(m, headers, rows[0], 0).value;
      PushRowLists(m, headers, rows[0], 0, h);
      PushRowsLists(m1, headers, rows[1..], h);
    }
  }

  /** On success, the list of each own header is every cell filed under it,
      row by row and left to right. */
  lemma TransposeLists(c: Container, h: Value)
    requires Transpose(c).Ok? && h in c.headers && !Inherited(h)
    ensures Transpose(c).value[h] == FiledAll(c.headers, c.data, h)
  {
    PushRowsLists(EmptyColumns(c.headers), c.headers, c.data, h);
  }

  lemma {:induction false} FiledOne(headers: seq<Value>, row: seq<Value>, j: nat, k: nat)
    requires DistinctHeaders(headers) && j < |headers| && headers[j] != Str("undefined") && k <= |row|
    ensures Filed(headers, row, headers[j], k) == if k <= j < |row| then [row[j]] else []
    decreases |row| - k
  {
    if k < |row| {
      FiledOne(headers, row, j, k + 1);
      assert HeaderAt(headers, k) == headers[j] <==> k == j;
    }
  }

  lemma {:induction false} FiledAllColumn(headers: seq<Value>, rows: seq<seq<Value>>, j: nat)
    requires DistinctHeaders(headers) && j < |headers| && headers[j] != Str("undefined")
    ensures FiledAll(headers, rows, headers[j]) == Column(rows, j)
    decreases |rows|
  {
    if |rows| > 0 {
      FiledOne(headers, rows[0], j, 0);
      FiledAllColumn(headers, rows[1..], j);
    }
  }

  /** No two columns share a header. */
  predicate DistinctHeaders(headers: seq<Value>)
  {
    forall a, b :: 0 <= a < b < |headers| ==> headers[a] != headers[b]
  }

  /** With distinct headers, the list under an own header other than
      "undefined" is its column, top to bottom; when every row is full it has
      one value per row. */
  lemma TransposeColumns(c: Container, j: nat)
    requires Transpose(c).Ok? && DistinctHeaders(c.headers) && j < |c.headers|
    requires !Inherited(c.headers[j]) && c.headers[j] != Str("undefined")
    ensures Transpose(c).value[c.headers[j]] == Column(c.data, j)
    ensures (forall i :: 0 <= i < |c.data| ==> |c.data[i]| == |c.headers|) ==>
      |Transpose(c).value[c.headers[j]]| == |c.data|
  {
    TransposeLists(c, c.headers[j]);
    FiledAllColumn(c.headers, c.data, j);
  }

  /** A header named after an inherited property never gets a list, and the
      first cell under it throws. */
  lemma TransposePrototypeName()
    ensures Transpose(Container([Str("constructor")], [[Num(1.0)]]))
      == Err("transposed[headers[index]].push is not a function")
  {
    assert HeaderAt([Str("constructor")], 0) == Str("constructor");
  }

  /** A header named "undefined" also collects every cell past the last
      header, so an over-long row succeeds. */
  lemma TransposeUndefinedHeader()
    ensures Transpose(Container([Str("undefined")], [[Num(1.0), Num(2.0)]]))
      == Ok(map[Str("undefined") := [Num(1.0), Num(2.0)]])
  {
    var headers := [Str("undefined")];
    var m := EmptyColumns(headers);
    var row := [Num(1.0), Num(2.0)];
    assert m == map[Str("undefined") := []];
    assert HeaderAt(headers, 0) == Str("undefined") && HeaderAt(headers, 1) == Str("undefined");
    var m1 := map[Str("undefined") := [Num(1.0)]];
    var m2 := map[Str("undefined") := row];
    assert PushRow(m2, headers, row, 2) == Ok(m2);
    var u := Str("undefined");
    assert m1[u] + [row[1]] == row;
    assert m1[u := m1[u] + [row[1]]] == m2;
    assert PushRow(m1, headers, row, 1) == Ok(m2);
    assert m[u] + [row[0]] == [Num(1.0)];
    assert m[u := m[u] + [row[0]]] == m1;
    assert PushRow(m, headers, row, 0) == Ok(m2);
    assert PushRows(m2, headers, []) == Ok(m2);
  }
}
