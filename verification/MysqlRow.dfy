/** Row packets of the text result set. */
module MysqlRow {
  import opened Bytes
  import opened MysqlWire
  import opened MysqlField

  datatype Cell = Null | Text(bytes: seq<Byte>)

  /** A PHP row array: column name to value. */
  type Row = map<seq<Byte>, Cell>

  datatype RowResult =
    | RowOk(row: Row)
    | RowErr(code: nat)
    | RowWild

  /** A name handed over as a C string ends at its first NUL. */
  function CName(s: seq<Byte>): seq<Byte> {
    if s == [] || s[0] == 0 then [] else [s[0]] + CName(s[1..])
  }

  /** The column types the row decoder has a case for, other than NULL. ENUM (247),
      SET (248) and GEOMETRY (255) are not among them. */
  predicate TextType(t: Byte) {
    (0 <= t <= 16 && t != 6) || t == 246 || 249 <= t <= 254
  }

  /** One column's value entered into the row: a column of a type without a case
      is left out, and an equal name overwrites. */
  function PutCell(row: Row, f: Field, cell: Cell): Row
    requires |f.strings| == STRINGS
  {
    if cell.Null? || f.ctype == 6 then row[CName(f.strings[NAME]) := Null]
    else if TextType(f.ctype) then row[CName(f.strings[NAME]) := cell]
    else row
  }

  /** The cell is entered into its row, for which its column's name is read. */
  predicate NamesColumn(f: Field, cell: Cell) {
    cell.Null? || f.ctype == 6 || TextType(f.ctype)
  }

  ghost predicate NamedFields(fields: seq<Field>) {
    forall f :: f in fields ==> |f.strings| == STRINGS
  }

  /** mysql_decode_row from column `fields[0]` and byte `i` on. */
  function DecodeCells(fields: seq<Field>, p: seq<Byte>, i: nat, row: Row): RowResult
    requires NamedFields(fields) && i <= |p|
    decreases |fields|
  {
    if fields == [] then RowOk(row)
    else
      match ReadSpan(p, i)
      case SpanErr(code) => RowErr(code)
      case SpanWild => RowWild
      case Span(start, size, nul) =>
        var cell := if nul then Null else Text(p[start..start + size]);
        DecodeCells(fields[1..], p, start + size, PutCell(row, fields[0], cell))
  }

  /** Decoding from column `fields[0]` and byte `i` on reads one of the first `left` names. */
  predicate CellsReadName(fields: seq<Field>, left: nat, p: seq<Byte>, i: nat)
    requires i <= |p|
    decreases |fields|
  {
    fields != [] && left > 0 &&
    match ReadSpan(p, i)
    case Span(start, size, nul) =>
      || NamesColumn(fields[0], if nul then Null else Text(p[start..start + size]))
      || CellsReadName(fields[1..], left - 1, p, start + size)
    case _ => false
  }

  function DecodeRow(fields: seq<Field>, p: seq<Byte>): RowResult
    requires NamedFields(fields)
  {
    DecodeCells(fields, p, 0, map[])
  }

  // --------------------------------------------------------------- the encoder

  function WriteCell(c: Cell): (r: seq<Byte>)
    ensures |r| >= 1
    ensures c.Null? || |c.bytes| < TWO24 ==> r[0] < 254
  {
    if c.Null? then [251] else WriteString(c.bytes)
  }

  function WriteCells(cells: seq<Cell>): seq<Byte> {
    if cells == [] then [] else WriteCell(cells[0]) + WriteCells(cells[1..])
  }

  /** The row array a client should see for `cells`. */
  function RowOf(fields: seq<Field>, cells: seq<Cell>, row: Row): Row
    requires NamedFields(fields) && |cells| == |fields|
  {
    if fields == [] then row else RowOf(fields[1..], cells[1..], PutCell(row, fields[0], cells[0]))
  }

  lemma CellRoundTrip(p: seq<Byte>, i: nat, c: Cell)
    requires At(p, i, WriteCell(c)) && |p| < TWO64
    ensures var s := ReadSpan(p, i);
            && s.Span? && s.start + s.size == i + |WriteCell(c)|
            && (if s.nul then Null else Text(p[s.start..s.start + s.size])) == c
  {
    if c.Null? {
      assert p[i..][0] == 251;
    } else {
      SpanRoundTrip(p, i, c.bytes);
      AtTail(p, i + |WriteCell(c)| - |c.bytes|, c.bytes);
    }
  }

  lemma {:induction false} CellsRoundTrip(fields: seq<Field>, cells: seq<Cell>, p: seq<Byte>, i: nat, row: Row)
    requires NamedFields(fields) && |cells| == |fields|
    requires At(p, i, WriteCells(cells)) && |p| < TWO64
    ensures DecodeCells(fields, p, i, row) == RowOk(RowOf(fields, cells, row))
    decreases |fields|
  {
    hide ReadSpan, WriteCell, PutCell, At;
    if fields != [] {
      var w := WriteCell(cells[0]);
      AtSplit(p, i, w, WriteCells(cells[1..]));
      CellRoundTrip(p, i, cells[0]);
      CellsRoundTrip(fields[1..], cells[1..], p, i + |w|, PutCell(row, fields[0], cells[0]));
    } else {
      AtTail(p, i, WriteCells(cells));
    }
  }

  /** One of the first `left` cells is entered into the row. */
  predicate NamesOneOf(fields: seq<Field>, left: nat, cells: seq<Cell>)
    requires |cells| == |fields|
  {
    fields != [] && left > 0 &&
    (NamesColumn(fields[0], cells[0]) || NamesOneOf(fields[1..], left - 1, cells[1..]))
  }

  /** Decoding an encoded row reads one of the first `left` names exactly if such a cell is entered. */
  lemma {:induction false} EncodedReadsName(fields: seq<Field>, left: nat, cells: seq<Cell>, p: seq<Byte>, i: nat)
    requires |cells| == |fields| && At(p, i, WriteCells(cells)) && |p| < TWO64
    ensures i <= |p| && (CellsReadName(fields, left, p, i) <==> NamesOneOf(fields, left, cells))
    decreases |fields|
  {
    hide ReadSpan, WriteCell, NamesColumn, At;
    AtTail(p, i, WriteCells(cells));
    if fields != [] && left > 0 {
      var w := WriteCell(cells[0]);
      AtSplit(p, i, w, WriteCells(cells[1..]));
      CellRoundTrip(p, i, cells[0]);
      EncodedReadsName(fields[1..], left - 1, cells[1..], p, i + |w|);
    }
  }

  lemma {:induction false} NamesMore(fields: seq<Field>, left: nat, more: nat, cells: seq<Cell>)
    requires |cells| == |fields| && left <= more && NamesOneOf(fields, left, cells)
    ensures NamesOneOf(fields, more, cells)
    decreases |fields|
  {
    if !NamesColumn(fields[0], cells[0]) { NamesMore(fields[1..], left - 1, more - 1, cells[1..]); }
  }

  /** A row whose decoding reads no name is empty. */
  lemma {:induction false} NoNameNoCell(fields: seq<Field>, left: nat, p: seq<Byte>, i: nat, row: Row)
    requires NamedFields(fields) && i <= |p| && left >= |fields| && !CellsReadName(fields, left, p, i)
    ensures DecodeCells(fields, p, i, row).RowOk? ==> DecodeCells(fields, p, i, row).row == row
    decreases |fields|
  {
    hide ReadSpan, TextType;
    if fields != [] {
      var d := ReadSpan(p, i);
      if d.Span? { NoNameNoCell(fields[1..], left - 1, p, d.start + d.size, row); }
    }
  }

  /** Decoding an encoded row gives back its cells. */
  lemma RowRoundTrip(fields: seq<Field>, cells: seq<Cell>)
    requires NamedFields(fields) && |cells| == |fields|
    requires |WriteCells(cells)| < TWO24
    ensures DecodeRow(fields, WriteCells(cells)) == RowOk(RowOf(fields, cells, map[]))
  {
    var p := WriteCells(cells);
    assert p[0..|p|] == p;
    CellsRoundTrip(fields, cells, p, 0, map[]);
  }

  /** A row of a packet under 2^24 bytes never starts with the EOF marker 0xfe. */
  lemma RowIsNotEof(cells: seq<Cell>)
    requires cells != [] && |WriteCells(cells)| < TWO24
    ensures |WriteCells(cells)| >= 1 && WriteCells(cells)[0] != 254
  {
    assert WriteCells(cells)[0] == WriteCell(cells[0])[0];
    if cells[0].Text? {
      assert |WriteCell(cells[0])| > |cells[0].bytes|;
    }
  }
}
