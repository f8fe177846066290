/**
 * The flatten loop of `read_csv`. The CSV tokenising belongs to an external
 * reader, so its output is taken as given: the sequence of records, each a
 * sequence of cells, each cell a byte string. The first record is the header
 * and is consumed without being classified; every cell of every later record
 * is classified with `parse` and appended, in row-major order.
 */
module Decoder {
  import opened Fields
  import opened Utf8
  import opened Numbers
  import opened Classifier
  import opened Aggregator

  type Cell = seq<byte>
  type Record = seq<Cell>

  /** The records after the header: reading the header consumes the first record, if there is one. */
  function DataRows(records: seq<Record>): seq<Record> {
    if records == [] then [] else records[1..]
  }

  /** The cells of the rows, row after row, left to right within a row. */
  function Flatten(rows: seq<Record>): seq<Cell>
    decreases |rows|
  {
    if rows == [] then [] else rows[0] + Flatten(rows[1..])
  }

  /** The number of cells in the rows. */
  function CellCount(rows: seq<Record>): nat
    decreases |rows|
  {
    if rows == [] then 0 else |rows[0]| + CellCount(rows[1..])
  }

  /** `parse` applied to each cell, in order. */
  function ParseAll(cells: seq<Cell>): seq<Option<Field>> {
    seq(|cells|, i requires 0 <= i < |cells| => Parse(cells[i]))
  }

  /** What `read_csv` returns for the records the reader yields: one result per data cell, none for the header's cells. */
  function CsvFields(records: seq<Record>): (r: seq<Option<Field>>)
    ensures |r| == CellCount(DataRows(records))
  {
    FlattenLength(DataRows(records));
    ParseAll(Flatten(DataRows(records)))
  }

  lemma {:induction false} FlattenAppend(rows: seq<Record>, r: Record)
    ensures Flatten(rows + [r]) == Flatten(rows) + r
    decreases |rows|
  {
    if rows != [] {
      assert (rows + [r])[1..] == rows[1..] + [r];
      FlattenAppend(rows[1..], r);
    }
  }

  lemma ParseAllAppend(a: seq<Cell>, b: seq<Cell>)
    ensures ParseAll(a + b) == ParseAll(a) + ParseAll(b)
  {
  }

  /** The record most recently read into the reused buffer, which starts out empty. */
  function LastRecord(rows: seq<Record>): Record {
    if rows == [] then [] else rows[|rows| - 1]
  }

  /**
   * What `read_csv` returns when the read that meets the end of input leaves
   * the reused buffer holding the last record: the loop ignores that the read
   * failed and pushes the last data record's cells a second time.
   */
  function CsvFieldsAsWritten(records: seq<Record>): (r: seq<Option<Field>>)
    ensures |r| == CellCount(DataRows(records)) + |LastRecord(DataRows(records))|
  {
    CsvFields(records) + ParseAll(LastRecord(DataRows(records)))
  }

  /** The inner loop of `read_csv`: push `parse` of each cell of the record, in order. */
  method PushAll(fields: seq<Option<Field>>, record: Record) returns (out: seq<Option<Field>>)
    ensures out == fields + ParseAll(record)
  {
    out := fields;
    for j := 0 to |record|
      invariant out == fields + ParseAll(record[..j])
    {
      assert record[..j + 1] == record[..j] + [record[j]];
      out := out + [Parse(record[j])];
    }
    assert record[..|record|] == record;
  }

  /**
   * `read_csv`: skip the header, then until the reader reports it is done,
   * read the next record into the reused buffer and push `parse` of each of
   * its cells. The read that meets the end of input reports no record, and
   * the loop pushes whatever that read leaves in the buffer: nothing when it
   * empties the buffer, the last record again when it leaves the buffer as it
   * was (`finalReadKeeps`).
   */
  method ReadCsv(records: seq<Record>, finalReadKeeps: bool) returns (fields: seq<Option<Field>>)
    ensures fields == if finalReadKeeps then CsvFieldsAsWritten(records) else CsvFields(records)
  {
    var start := if records == [] then 0 else 1;
    var pos := start;
    fields := [];
    var record: Record := [];
    var done := false;
    while !done
      invariant start <= pos <= |records|
      invariant done ==> pos == |records|
      invariant !done ==> record == LastRecord(records[start..pos])
      invariant !done ==> fields == ParseAll(Flatten(records[start..pos]))
      invariant done ==> record == if finalReadKeeps then LastRecord(records[start..pos]) else []
      invariant done ==> fields == ParseAll(Flatten(records[start..pos])) + ParseAll(record)
      decreases |records| - pos + (if done then 0 else 1)
    {
      ghost var rows := records[start..pos];
      if pos < |records| {
        record := records[pos];
        pos := pos + 1;
        assert records[start..pos] == rows + [record];
        FlattenAppend(rows, record);
        ParseAllAppend(Flatten(rows), record);
      } else {
        if !finalReadKeeps {
          record := [];
        }
        done := true;
      }
      fields := PushAll(fields, record);
    }
    ghost var data := DataRows(records);
    assert records[start..pos] == data;
    if !finalReadKeeps {
      assert ParseAll(record) == [];
      assert fields == CsvFields(records) + [];
    }
  }

  lemma {:induction false} FlattenLength(rows: seq<Record>)
    ensures |Flatten(rows)| == CellCount(rows)
    decreases |rows|
  {
    if rows != [] {
      FlattenLength(rows[1..]);
    }
  }

  /** Row-major order: cell `c` of row `r` sits after all the cells of the rows before it. */
  lemma {:induction false} FlattenAt(rows: seq<Record>, r: nat, c: nat)
    requires r < |rows| && c < |rows[r]|
    ensures CellCount(rows[..r]) + c < |Flatten(rows)|
    ensures Flatten(rows)[CellCount(rows[..r]) + c] == rows[r][c]
    decreases r
  {
    FlattenLength(rows);
    if r > 0 {
      FlattenAt(rows[1..], r - 1, c);
      assert rows[..r][1..] == rows[1..][..r - 1];
      FlattenLength(rows[1..]);
    }
  }

  /**
   * As written, when the final read leaves the buffer as it was, the
   * histogram counts the last record's cells twice: its total exceeds the
   * number of data cells by the width of the last record.
   */
  lemma RepeatedLastRow(records: seq<Record>)
    requires |records| >= 2
    ensures Total(HistogramOf(CsvFieldsAsWritten(records)))
         == CellCount(DataRows(records)) + |records[|records| - 1]|
  {
    var out := CsvFieldsAsWritten(records);
    HistogramTotal(out);
    assert LastRecord(DataRows(records)) == records[|records| - 1];
  }

  /** The result at the flat position of data cell `c` of record `r` is `parse` of that cell. */
  lemma CsvFieldsAt(records: seq<Record>, r: nat, c: nat)
    requires 1 <= r < |records| && c < |records[r]|
    ensures CellCount(records[1..r]) + c < |CsvFields(records)|
    ensures CsvFields(records)[CellCount(records[1..r]) + c] == Parse(records[r][c])
  {
    var rows := DataRows(records);
    assert rows[r - 1] == records[r] && rows[..r - 1] == records[1..r];
    FlattenAt(rows, r - 1, c);
  }

  /** The header is never classified: replacing it changes nothing in the result. */
  lemma HeaderNeverClassified(records: seq<Record>, header: Record)
    requires records != []
    ensures CsvFields(records[0 := header]) == CsvFields(records)
  {
    assert DataRows(records[0 := header]) == DataRows(records);
  }

  /** Over the whole pipeline, the histogram's counts sum to the number of data cells. */
  lemma PipelineTotal(records: seq<Record>)
    ensures Total(HistogramOf(CsvFields(records))) == CellCount(DataRows(records))
  {
    HistogramTotal(CsvFields(records));
  }

  /** The cells of the example file below, other than those classified in the classifier's examples. */
  lemma ScenarioCellExamples()
    ensures Classify("1") == Some(Integer)
    ensures Classify("2.5") == Some(Float)
    ensures Classify("x") == Some(String)
  {
    assert DigitsValue("1") == 1;
  }

  /** Three rows of two cells flatten to the six cells in row-major order. */
  lemma FlattenThreePairs(a: Cell, b: Cell, c: Cell, d: Cell, e: Cell, f: Cell)
    ensures Flatten([[a, b], [c, d], [e, f]]) == [a, b, c, d, e, f]
  {
    var rows := [[a, b], [c, d], [e, f]];
    assert rows[1..][1..][1..] == [];
    assert Flatten(rows[1..][1..]) == [e, f];
    assert Flatten(rows[1..]) == [c, d, e, f];
  }

  /**
   * End to end, for a file with some header and the rows `1,hello`,
   * `NULL,2.5` and `x,NULL` (cells that classify as the examples show): the
   * results follow the data cells in row-major order, whatever the header holds.
   */
  lemma ScenarioFields(header: Record, one: Cell, hello: Cell, marker: Cell, twoFive: Cell, x: Cell)
    requires Parse(one) == Some(Integer) && Parse(hello) == Some(String) && Parse(marker) == None
    requires Parse(twoFive) == Some(Float) && Parse(x) == Some(String)
    ensures CsvFields([header, [one, hello], [marker, twoFive], [x, marker]])
         == [Some(Integer), Some(String), None, Some(Float), Some(String), None]
  {
    var records := [header, [one, hello], [marker, twoFive], [x, marker]];
    assert DataRows(records) == [[one, hello], [marker, twoFive], [x, marker]];
    var cells := [one, hello, marker, twoFive, x, marker];
    FlattenThreePairs(one, hello, marker, twoFive, x, marker);
    assert CsvFields(records) == ParseAll(cells);
  }

  /**
   * End to end on the bytes themselves: for a file with any header and the
   * rows `1,hello`, `NULL,2.5` and `x,NULL`, `read_csv` yields Integer,
   * String, null, Float, String, null.
   */
  lemma Scenario(header: Record)
    ensures CsvFields([header, [EncodeUtf8("1"), EncodeUtf8("hello")], [EncodeUtf8("NULL"), EncodeUtf8("2.5")],
                       [EncodeUtf8("x"), EncodeUtf8("NULL")]])
         == [Some(Integer), Some(String), None, Some(Float), Some(String), None]
  {
    ScenarioCellExamples();
    WordExamples();
    NullExamples();
    ParseText("1");
    ParseText("hello");
    ParseText("NULL");
    ParseText("2.5");
    ParseText("x");
    ScenarioFields(header, EncodeUtf8("1"), EncodeUtf8("hello"), EncodeUtf8("NULL"), EncodeUtf8("2.5"), EncodeUtf8("x"));
  }

  /** End to end on the bytes, counting: the example file's histogram. */
  lemma EndToEnd(header: Record)
    ensures HistogramOf(CsvFields([header, [EncodeUtf8("1"), EncodeUtf8("hello")], [EncodeUtf8("NULL"), EncodeUtf8("2.5")],
                                   [EncodeUtf8("x"), EncodeUtf8("NULL")]]))
         == map[Some(Integer) := 1, Some(String) := 2, Some(Float) := 1, None := 2]
  {
    Scenario(header);
    ScenarioHistogram([Some(Integer), Some(String), None, Some(Float), Some(String), None]);
  }

  /**
   * The example file as written, when the final read leaves the buffer
   * holding the last row: for cells classified as in `ScenarioFields`, the row
   * `x,NULL` is classified twice, giving eight results.
   */
  lemma ScenarioFieldsAsWritten(header: Record, one: Cell, hello: Cell, marker: Cell, twoFive: Cell, x: Cell)
    requires Parse(one) == Some(Integer) && Parse(hello) == Some(String) && Parse(marker) == None
    requires Parse(twoFive) == Some(Float) && Parse(x) == Some(String)
    ensures CsvFieldsAsWritten([header, [one, hello], [marker, twoFive], [x, marker]])
         == [Some(Integer), Some(String), None, Some(Float), Some(String), None, Some(String), None]
  {
    var records := [header, [one, hello], [marker, twoFive], [x, marker]];
    ScenarioFields(header, one, hello, marker, twoFive, x);
    assert LastRecord(DataRows(records)) == [x, marker];
    assert ParseAll([x, marker]) == [Some(String), None];
  }

  /** The same on the cells' actual bytes: `read_csv` as written yields eight results. */
  lemma ScenarioAsWritten(header: Record)
    ensures CsvFieldsAsWritten([header, [EncodeUtf8("1"), EncodeUtf8("hello")], [EncodeUtf8("NULL"), EncodeUtf8("2.5")],
                                [EncodeUtf8("x"), EncodeUtf8("NULL")]])
         == [Some(Integer), Some(String), None, Some(Float), Some(String), None, Some(String), None]
  {
    ScenarioCellExamples();
    WordExamples();
    NullExamples();
    ParseText("1");
    ParseText("hello");
    ParseText("NULL");
    ParseText("2.5");
    ParseText("x");
    ScenarioFieldsAsWritten(header, EncodeUtf8("1"), EncodeUtf8("hello"), EncodeUtf8("NULL"), EncodeUtf8("2.5"), EncodeUtf8("x"));
  }

  /**
   * End to end, counting: any arrangement of the example file's results (two
   * nulls, two strings, one integer and one float) gives the same histogram.
   */
  lemma ScenarioHistogram(fields: seq<Option<Field>>)
    requires multiset(fields) == multiset{Some(Integer), Some(String), None, Some(Float), Some(String), None}
    ensures HistogramOf(fields) == map[Some(Integer) := 1, Some(String) := 2, Some(Float) := 1, None := 2]
  {
    var expected := map[Some(Integer) := 1, Some(String) := 2, Some(Float) := 1, None := 2];
    var h := HistogramOf(fields);
    HistogramCounts(fields);
    forall k
      ensures k in h <==> k in expected
      ensures k in h ==> h[k] == expected[k]
    {
      assert CountOf(h, k) == multiset(fields)[k];
      KeyInKeys(k);
    }
  }
}
