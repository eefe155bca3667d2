/** `parseCSV` (src/App.js:7-23): a comma splitter without quoting or escaping. */
module Csv {
  import opened JsText
  import opened Seqs

  /** One data line as the object `entry`: header key -> trimmed field, or undefined
      (None) where the line has fewer fields than there are headers. */
  type Row = map<string, Option<string>>

  /** What `parseCSV` returns: the array `[]` when there are fewer than two lines,
      otherwise `{ headers, data }`. */
  datatype Parsed = Empty | Table(headers: seq<string>, data: seq<Row>)

  /** `row[key]`: an absent key reads as undefined. */
  function Cell(row: Row, key: string): Option<string>
  {
    if key in row then row[key] else None
  }

  function StripCR(s: string): string
  {
    if |s| > 0 && s[|s| - 1] == '\r' then s[..|s| - 1] else s
  }

  /** `text.split(/\r?\n/)`: every line break is a '\n', with the '\r' before it (if any)
      belonging to the break; a '\r' at the very end of the text stays in the last piece. */
  function SplitLines(text: string): seq<string>
  {
    var pieces := Split(text, '\n');
    seq(|pieces|, i requires 0 <= i < |pieces| =>
      if i < |pieces| - 1 then StripCR(pieces[i]) else pieces[i])
  }

  /** `csvText.split(/\r?\n/).filter(line => line)`: only the empty string is dropped;
      a line of blanks survives. */
  function Lines(text: string): seq<string>
  {
    Filter(SplitLines(text), (line: string) => line != "")
  }

  /** `line.split(',').map(v => v.trim())` */
  function Fields(line: string): seq<string>
  {
    var parts := Split(line, ',');
    seq(|parts|, i requires 0 <= i < |parts| => Trim(parts[i]))
  }

  /** `header || \`column_${index}\``: the key a column is stored under. */
  function ColumnKey(header: string, index: nat): (k: string)
    ensures k != ""
    ensures header != "" ==> k == header
  {
    if header != "" then header else "column_" + DecimalString(index)
  }

  /** `values[index]` */
  function FieldAt(values: seq<string>, index: nat): Option<string>
  {
    if index < |values| then Some(values[index]) else None
  }

  /** The entry after the first `n` steps of `headers.forEach`. */
  function RowUpTo(headers: seq<string>, values: seq<string>, n: nat): Row
    requires n <= |headers|
  {
    if n == 0 then map[]
    else RowUpTo(headers, values, n - 1)[ColumnKey(headers[n - 1], n - 1) := FieldAt(values, n - 1)]
  }

  /** The entry built for one data line. */
  function RowOf(headers: seq<string>, values: seq<string>): Row
  {
    RowUpTo(headers, values, |headers|)
  }

  /** One entry per data line, in order. */
  function RowsOf(headers: seq<string>, lines: seq<string>): (rows: seq<Row>)
    ensures |rows| == |lines|
    ensures forall i :: 0 <= i < |lines| ==> rows[i] == RowOf(headers, Fields(lines[i]))
  {
    if lines == [] then []
    else RowsOf(headers, lines[..|lines| - 1]) + [RowOf(headers, Fields(lines[|lines| - 1]))]
  }

  /** The value `parseCSV(text)`. */
  function ParseResult(text: string): Parsed
  {
    var lines := Lines(text);
    if |lines| < 2 then Empty else Table(Fields(lines[0]), RowsOf(Fields(lines[0]), lines[1..]))
  }

  /** One more line gives one more entry, at the end. */
  lemma {:induction false} RowsOfStep(headers: seq<string>, lines: seq<string>, i: nat)
    requires 1 <= i < |lines|
    ensures RowsOf(headers, lines[1..i + 1]) == RowsOf(headers, lines[1..i]) + [RowOf(headers, Fields(lines[i]))]
  {
    assert lines[1..i + 1][..i - 1] == lines[1..i];
  }

  /** `parseCSV` gives `[]` exactly when there are fewer than two lines; otherwise the first
      line's fields are the headers and each later line gives one entry, in order. */
  lemma {:induction false} ParseResultShape(text: string)
    ensures |Lines(text)| < 2 <==> ParseResult(text) == Empty
    ensures var p := ParseResult(text);
      p.Table? ==> p.headers == Fields(Lines(text)[0]) && |p.data| == |Lines(text)| - 1
    ensures var p := ParseResult(text);
      p.Table? ==> forall i :: 0 <= i < |p.data| ==> p.data[i] == RowOf(p.headers, Fields(Lines(text)[i + 1]))
  {
    var lines := Lines(text);
    if |lines| >= 2 {
      var rows := RowsOf(Fields(lines[0]), lines[1..]);
      forall i | 0 <= i < |rows|
        ensures rows[i] == RowOf(Fields(lines[0]), Fields(lines[i + 1]))
      {
        assert lines[1..][i] == lines[i + 1];
      }
    }
  }

  /** The `headers.forEach` that fills one `entry`: each header's key receives the field
      at the header's position. */
  method BuildEntry(headers: seq<string>, values: seq<string>) returns (entry: Row)
    ensures entry == RowOf(headers, values)
  {
    entry := map[];
    var index := 0;
    while index < |headers|
      invariant 0 <= index <= |headers|
      invariant entry == RowUpTo(headers, values, index)
    {
      entry := entry[ColumnKey(headers[index], index) := FieldAt(values, index)];
      index := index + 1;
    }
  }

  /** `parseCSV`, with its index loop over the lines and its `forEach` over the headers. */
  method ParseCsv(text: string) returns (p: Parsed)
    ensures p == ParseResult(text)
    ensures |Lines(text)| < 2 <==> p == Empty
    ensures p.Table? ==> p.headers == Fields(Lines(text)[0]) && |p.data| == |Lines(text)| - 1
    ensures p.Table? ==> forall i :: 0 <= i < |p.data| ==> p.data[i] == RowOf(p.headers, Fields(Lines(text)[i + 1]))
  {
    ParseResultShape(text);
    var lines := Lines(text);
    if |lines| < 2 {
      return Empty;
    }
    var headers := Fields(lines[0]);
    var data: seq<Row> := [];
    var i := 1;
    while i < |lines|
      invariant 1 <= i <= |lines|
      invariant data == RowsOf(headers, lines[1..i])
    {
      var entry := BuildEntry(headers, Fields(lines[i]));
      RowsOfStep(headers, lines, i);
      data := data + [entry];
      i := i + 1;
    }
    assert lines[1..i] == lines[1..];
    p := Table(headers, data);
  }

  // ---------------------------------------------------------------------------
  // Lines and fields

  /** Splitting into lines keeps one piece per '\n'-separated piece of the text; a piece
      loses at most the '\r' of a "\r\n" break, and the last piece loses nothing. */
  lemma {:induction false} SplitLinesPieces(text: string)
    ensures var r := SplitLines(text); var pieces := Split(text, '\n');
      |r| == |pieces| && r[|r| - 1] == pieces[|r| - 1]
      && (forall i :: 0 <= i < |r| ==> '\n' !in r[i])
      && (forall i :: 0 <= i < |r| - 1 ==> pieces[i] == r[i] || pieces[i] == r[i] + ['\r'])
      && (forall i :: 0 <= i < |r| - 1 ==>
            (pieces[i] == r[i] + ['\r'] <==> |pieces[i]| > 0 && pieces[i][|pieces[i]| - 1] == '\r'))
  {
    var r := SplitLines(text);
    var pieces := Split(text, '\n');
    forall i | 0 <= i < |r|
      ensures '\n' !in r[i]
    {
      assert '\n' !in pieces[i];
    }
    forall i | 0 <= i < |r| - 1
      ensures pieces[i] == r[i] + ['\r'] <==> |pieces[i]| > 0 && pieces[i][|pieces[i]| - 1] == '\r'
    {
      var p := pieces[i];
      assert r[i] == StripCR(p);
      if |p| > 0 && p[|p| - 1] == '\r' {
        assert p == p[..|p| - 1] + ['\r'];
      }
    }
  }

  /** The lines are exactly the non-empty pieces, in order and as often as they occur:
      none is empty, and a whitespace-only line is kept. */
  lemma {:induction false} LinesAreNonEmptyPieces(text: string)
    ensures forall i :: 0 <= i < |Lines(text)| ==> Lines(text)[i] != "" && Lines(text)[i] in SplitLines(text)
    ensures forall line :: line in SplitLines(text) && line != "" ==> line in Lines(text)
    ensures IsSubsequence(Lines(text), SplitLines(text))
    ensures forall x :: x != "" ==> multiset(Lines(text))[x] == multiset(SplitLines(text))[x]
  {
    var keep := (line: string) => line != "";
    FilterIsSubsequence(SplitLines(text), keep);
    forall x | x != ""
      ensures multiset(Lines(text))[x] == multiset(SplitLines(text))[x]
    {
      FilterCount(SplitLines(text), keep, x);
    }
  }

  /** Each field is a trimmed comma-free piece; a line with `n` commas has `n + 1` fields. */
  lemma {:induction false} FieldsShape(line: string)
    ensures |Fields(line)| == |Split(line, ',')| == multiset(line)[','] + 1
    ensures forall i :: 0 <= i < |Fields(line)| ==> ',' !in Fields(line)[i] && IsTrimmed(Fields(line)[i])
  {
    var parts := Split(line, ',');
    SplitCount(line, ',');
    forall i | 0 <= i < |parts|
      ensures ',' !in Fields(line)[i]
    {
      assert ',' !in parts[i];
      var w1, w2 := TrimSplit(parts[i]);
      assert ',' !in w1 + Fields(line)[i] + w2;
    }
  }

  // ---------------------------------------------------------------------------
  // What a parsed row holds

  lemma {:induction false} RowUpToKeys(headers: seq<string>, values: seq<string>, n: nat, k: string)
    requires n <= |headers|
    ensures k in RowUpTo(headers, values, n) <==> exists i :: 0 <= i < n && ColumnKey(headers[i], i) == k
  {
    if n > 0 {
      RowUpToKeys(headers, values, n - 1, k);
      var last := ColumnKey(headers[n - 1], n - 1);
      var prev := RowUpTo(headers, values, n - 1);
      assert RowUpTo(headers, values, n) == prev[last := FieldAt(values, n - 1)];
      if k == last {
        assert 0 <= n - 1 < n && ColumnKey(headers[n - 1], n - 1) == k;
      } else if exists i :: 0 <= i < n && ColumnKey(headers[i], i) == k {
        var i :| 0 <= i < n && ColumnKey(headers[i], i) == k;
        assert i < n - 1;
      }
    }
  }

  /** A row has a key for every header (the header itself, or `column_<i>` when it is
      empty) and no other key: fields beyond the header count are dropped. */
  lemma {:induction false} RowKeys(headers: seq<string>, values: seq<string>, k: string)
    ensures k in RowOf(headers, values) <==> exists i :: 0 <= i < |headers| && ColumnKey(headers[i], i) == k
  {
    RowUpToKeys(headers, values, |headers|, k);
  }

  /** No row has the key "", so `row[""]` is undefined. */
  lemma {:induction false} NoEmptyKey(headers: seq<string>, values: seq<string>)
    ensures "" !in RowOf(headers, values)
  {
    RowKeys(headers, values, "");
  }

  lemma {:induction false} RowUpToLastWins(headers: seq<string>, values: seq<string>, n: nat, i: nat)
    requires i < n <= |headers|
    requires forall j :: i < j < n ==> ColumnKey(headers[j], j) != ColumnKey(headers[i], i)
    ensures ColumnKey(headers[i], i) in RowUpTo(headers, values, n)
    ensures RowUpTo(headers, values, n)[ColumnKey(headers[i], i)] == FieldAt(values, i)
  {
    var key := ColumnKey(headers[i], i);
    var last := ColumnKey(headers[n - 1], n - 1);
    var prev := RowUpTo(headers, values, n - 1);
    assert RowUpTo(headers, values, n) == prev[last := FieldAt(values, n - 1)];
    if i < n - 1 {
      RowUpToLastWins(headers, values, n - 1, i);
      assert last != key;
    }
  }

  /** The value under a column's key is that column's field, or undefined past the end
      of the line, taken from the last column that has the same key (a repeated header:
      the later column wins). */
  lemma {:induction false} RowLastWins(headers: seq<string>, values: seq<string>, i: nat)
    requires i < |headers|
    requires forall j :: i < j < |headers| ==> ColumnKey(headers[j], j) != ColumnKey(headers[i], i)
    ensures Cell(RowOf(headers, values), ColumnKey(headers[i], i)) == FieldAt(values, i)
    ensures i >= |values| ==> Cell(RowOf(headers, values), ColumnKey(headers[i], i)) == None
  {
    RowUpToLastWins(headers, values, |headers|, i);
  }

  /** Column `j` has key `k`, and no later column has. */
  predicate LastColumnWithKey(headers: seq<string>, j: int, k: string)
  {
    0 <= j < |headers| && ColumnKey(headers[j], j) == k
    && forall j' :: j < j' < |headers| ==> ColumnKey(headers[j'], j') != k
  }

  /** The placeholder keys of empty headers differ from column to column. */
  lemma {:induction false} EmptyKeysDistinct(i: nat, j: nat)
    requires i != j
    ensures ColumnKey("", i) != ColumnKey("", j)
  {
    DigitsValueOfDecimal(i);
    DigitsValueOfDecimal(j);
    var ki, kj := ColumnKey("", i), ColumnKey("", j);
    assert ki[7..] == DecimalString(i);
    assert kj[7..] == DecimalString(j);
  }

  /** An empty-header column keeps its own field under its `column_<i>` key: later empty
      headers get other keys, so only a later header spelled exactly like that key could
      override it. */
  lemma {:induction false} EmptyHeaderField(headers: seq<string>, values: seq<string>, i: nat)
    requires i < |headers| && headers[i] == ""
    requires forall j :: i < j < |headers| ==> headers[j] != ColumnKey("", i)
    ensures Cell(RowOf(headers, values), ColumnKey("", i)) == FieldAt(values, i)
  {
    forall j | i < j < |headers|
      ensures ColumnKey(headers[j], j) != ColumnKey(headers[i], i)
    {
      if headers[j] == "" {
        EmptyKeysDistinct(i, j);
      }
    }
    RowLastWins(headers, values, i);
  }

  /** Only an empty header gets a key starting "column_", so a key that starts otherwise
      is the header itself. */
  lemma {:induction false} KeyStart(header: string, i: nat)
    ensures header != "" || ColumnKey(header, i)[0] == 'c'
  {
  }

  /** When some column has key `k`, one of them is the last. */
  lemma {:induction false} LastColumnExists(headers: seq<string>, k: string, i: nat)
    requires i < |headers| && ColumnKey(headers[i], i) == k
    ensures exists j :: LastColumnWithKey(headers, j, k)
    decreases |headers| - i
  {
    if exists j' :: i < j' < |headers| && ColumnKey(headers[j'], j') == k {
      var j' :| i < j' < |headers| && ColumnKey(headers[j'], j') == k;
      LastColumnExists(headers, k, j');
    } else {
      assert LastColumnWithKey(headers, i, k);
    }
  }

  /** Reading any key of a parsed line: "" and a key no column has read as undefined;
      otherwise the key reads the field of the last column that has it. */
  lemma {:induction false} CellOfLine(headers: seq<string>, values: seq<string>, k: string)
    ensures k == "" ==> Cell(RowOf(headers, values), k) == None
    ensures (forall j :: 0 <= j < |headers| ==> ColumnKey(headers[j], j) != k) ==> Cell(RowOf(headers, values), k) == None
    ensures forall j :: LastColumnWithKey(headers, j, k) ==> Cell(RowOf(headers, values), k) == FieldAt(values, j)
    ensures (exists i :: 0 <= i < |headers| && ColumnKey(headers[i], i) == k) ==> exists j :: LastColumnWithKey(headers, j, k)
  {
    if exists i :: 0 <= i < |headers| && ColumnKey(headers[i], i) == k {
      var i :| 0 <= i < |headers| && ColumnKey(headers[i], i) == k;
      LastColumnExists(headers, k, i);
    }
    NoEmptyKey(headers, values);
    RowKeys(headers, values, k);
    forall j | LastColumnWithKey(headers, j, k)
      ensures Cell(RowOf(headers, values), k) == FieldAt(values, j)
    {
      RowLastWins(headers, values, j);
    }
  }
}
