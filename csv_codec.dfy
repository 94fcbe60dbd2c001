/** The CSV form of the calibration table: a header line, then one line
    `angle, iq_forward, iq_reverse` per angular position. Rows are taken as the text
    stream has already split them into tokens; number formatting and parsing of the
    digits themselves belong to the text stream and are not modelled. */
module CsvCodec {
  import opened Wrappers

  const Header := "pos, iq_forward, iq_reverse"
  const Rows := 3600

  /** What `stream >> pos >> comma; stream >> iq_forward >> comma;
      stream >> iq_reverse >> crlf` reads for one row: the three numbers, the two
      separator characters, the terminator, and whether the stream was still Ok. */
  datatype RowTokens = RowTokens(pos: real, sep1: char, forward: real, sep2: char,
                                 reverse: real, term: char, streamOk: bool)

  /** The three columns of the table. */
  datatype CsvTable = CsvTable(axis: seq<real>, forward: seq<real>, reverse: seq<real>)

  /** The row check of the import loop: `comma` holds the second separator, since
      the second read overwrites the first, so only it and the terminator are looked at. */
  predicate RowAccepted(r: RowTokens) {
    r.sep2 == ',' && r.term == '\n' && r.streamOk
  }

  /** The tokens of row `i`; reading past the end of the file leaves the stream not Ok. */
  function RowAt(rows: seq<RowTokens>, i: nat): RowTokens {
    if i < |rows| then rows[i] else RowTokens(0.0, '\0', 0.0, '\0', 0.0, '\0', false)
  }

  /** The import: the header line must match exactly and all 3600 rows must pass
      the row check, or nothing is taken. */
  function Import(headerLine: string, rows: seq<RowTokens>): (r: Option<CsvTable>)
    ensures r.Some? <==>
      headerLine == Header && forall i :: 0 <= i < Rows ==> RowAccepted(RowAt(rows, i))
    ensures r.Some? ==>
      && |r.value.axis| == Rows && |r.value.forward| == Rows && |r.value.reverse| == Rows
      && forall i :: 0 <= i < Rows ==>
           r.value.axis[i] == RowAt(rows, i).pos && r.value.forward[i] == RowAt(rows, i).forward
           && r.value.reverse[i] == RowAt(rows, i).reverse
  {
    if headerLine != Header then None
    else if exists i :: 0 <= i < Rows && !RowAccepted(RowAt(rows, i)) then None
    else
      assert forall i :: 0 <= i < Rows ==> RowAccepted(RowAt(rows, i));
      assert RowAccepted(RowAt(rows, Rows - 1));
      Some(CsvTable(seq(Rows, i requires 0 <= i < Rows => rows[i].pos),
                    seq(Rows, i requires 0 <= i < Rows => rows[i].forward),
                    seq(Rows, i requires 0 <= i < Rows => rows[i].reverse)))
  }

  /** The export stream writes `angle`, ", ", `forward`, ", ", `reverse`, "\n". */
  function ExportRow(pos: real, forward: real, reverse: real): RowTokens {
    RowTokens(pos, ',', forward, ',', reverse, '\n', true)
  }

  /** The exported document: the header line and then one row per index, in order. */
  function Export(t: CsvTable): (r: (string, seq<RowTokens>))
    requires |t.forward| == |t.axis| && |t.reverse| == |t.axis|
    ensures r.0 == Header && |r.1| == |t.axis|
    ensures forall i :: 0 <= i < |t.axis| ==> r.1[i] == ExportRow(t.axis[i], t.forward[i], t.reverse[i])
  {
    (Header, ExportRows(t.axis, t.forward, t.reverse))
  }

  function ExportRows(axis: seq<real>, forward: seq<real>, reverse: seq<real>): (r: seq<RowTokens>)
    requires |forward| == |axis| && |reverse| == |axis|
    ensures |r| == |axis|
    ensures forall i :: 0 <= i < |axis| ==> r[i] == ExportRow(axis[i], forward[i], reverse[i])
    decreases |axis|
  {
    if axis == [] then []
    else [ExportRow(axis[0], forward[0], reverse[0])] + ExportRows(axis[1..], forward[1..], reverse[1..])
  }

  /** Importing what was exported gives back the table, at the level of tokens. */
  lemma ExportImportRoundTrip(t: CsvTable)
    requires |t.axis| == Rows && |t.forward| == Rows && |t.reverse| == Rows
    ensures Import(Export(t).0, Export(t).1) == Some(t)
  {
    var (h, rows) := Export(t);
    assert forall i :: 0 <= i < Rows ==> RowAt(rows, i) == rows[i];
    var r := Import(h, rows);
    assert r.Some?;
    assert r.value.axis == t.axis;
    assert r.value.forward == t.forward;
    assert r.value.reverse == t.reverse;
  }

  /** A single rejected row, or a file shorter than 3600 rows, rejects the whole file. */
  lemma OneBadRowRejects(headerLine: string, rows: seq<RowTokens>, i: nat)
    requires i < Rows && (i >= |rows| || !RowAccepted(rows[i]))
    ensures Import(headerLine, rows) == None
  {
    assert !RowAccepted(RowAt(rows, i));
  }

  /** The first separator of a row is never checked. */
  lemma FirstSeparatorIgnored(headerLine: string, rows: seq<RowTokens>, i: nat, c: char)
    requires i < |rows|
    ensures Import(headerLine, rows[i := rows[i].(sep1 := c)]) == Import(headerLine, rows)
  {
    var rows' := rows[i := rows[i].(sep1 := c)];
    assert forall j :: 0 <= j < Rows ==> RowAccepted(RowAt(rows', j)) == RowAccepted(RowAt(rows, j));
    var a := Import(headerLine, rows');
    var b := Import(headerLine, rows);
    if a.Some? {
      assert forall j :: 0 <= j < Rows ==>
        (RowAt(rows', j).pos == RowAt(rows, j).pos
         && RowAt(rows', j).forward == RowAt(rows, j).forward
         && RowAt(rows', j).reverse == RowAt(rows, j).reverse);
      assert a.value.axis == b.value.axis;
      assert a.value.forward == b.value.forward;
      assert a.value.reverse == b.value.reverse;
    }
  }
}
