/**
  * The client object of swoole_mysql.c: a growing receive buffer, the columns as
  * positions in it, and the calls that consume it. Every call is checked against
  * the parser on values.
  */
module MysqlClient {
  import opened Options
  import opened Bytes
  import opened MysqlWire
  import opened MysqlField
  import opened MysqlRow
  import opened MysqlBuffer
  import P = MysqlParser
  import F = MysqlFeed

  ghost predicate ColumnsIntact(mem: seq<Byte>, columns: seq<Column>, hi: nat) {
    hi <= |mem| && forall k :: 0 <= k < |columns| ==> ColumnIntact(mem, columns[k], 0, hi)
  }

  lemma WiderColumn(mem: seq<Byte>, c: Column, lo: nat, hi: nat, hi': nat)
    requires ColumnIntact(mem, c, lo, hi) && hi <= hi' <= |mem|
    ensures ColumnIntact(mem, c, 0, hi')
  {
    WiderIntact(mem, c.strings, lo, hi, 0, hi');
  }

  ghost function FieldsAt(mem: seq<Byte>, columns: seq<Column>, hi: nat): (fs: seq<Field>)
    requires ColumnsIntact(mem, columns, hi)
    ensures |fs| == |columns| && NamedFields(fs)
  {
    seq(|columns|, k requires 0 <= k < |columns| =>
          WiderColumn(mem, columns[k], 0, hi, |mem|); FieldAt(mem, columns[k]))
  }

  /** Columns below `mid` keep their values when memory changes from `mid` on. */
  lemma ColumnKept(mem: seq<Byte>, mem': seq<Byte>, c: Column, mid: nat, hi: nat)
    requires ColumnIntact(mem, c, 0, mid) && Untouched(mem', mem, mid, hi)
    ensures ColumnIntact(mem', c, 0, mid)
    ensures ColumnIntact(mem, c, 0, |mem|) && ColumnIntact(mem', c, 0, |mem|)
    ensures FieldAt(mem', c) == FieldAt(mem, c)
  {
    forall k | 0 <= k < |c.strings|
      ensures Intact(mem', c.strings[k], 0, mid) && Held(mem', c.strings[k]) == Held(mem, c.strings[k])
    {
      SameBelow(mem, mem', c.strings[k], 0, mid, hi);
    }
    if c.def.Some? {
      SameBelow(mem, mem', c.def.value, 0, mid, hi);
    }
    assert StringsAt(mem', c.strings) == StringsAt(mem, c.strings);
  }

  lemma ColumnsKept(mem: seq<Byte>, mem': seq<Byte>, columns: seq<Column>, mid: nat, hi: nat)
    requires ColumnsIntact(mem, columns, mid) && Untouched(mem', mem, mid, hi)
    ensures ColumnsIntact(mem', columns, mid)
    ensures FieldsAt(mem', columns, mid) == FieldsAt(mem, columns, mid)
  {
    hide ColumnIntact, FieldAt;
    forall k | 0 <= k < |columns|
      ensures ColumnIntact(mem', columns[k], 0, mid)
      ensures ColumnIntact(mem, columns[k], 0, |mem|) && ColumnIntact(mem', columns[k], 0, |mem|)
      ensures FieldAt(mem', columns[k]) == FieldAt(mem, columns[k])
    {
      ColumnKept(mem, mem', columns[k], mid, hi);
    }
  }

  lemma ColumnsWider(mem: seq<Byte>, columns: seq<Column>, hi: nat, hi': nat)
    requires ColumnsIntact(mem, columns, hi) && hi <= hi' <= |mem|
    ensures ColumnsIntact(mem, columns, hi')
    ensures FieldsAt(mem, columns, hi') == FieldsAt(mem, columns, hi)
  {
    forall k | 0 <= k < |columns| ensures ColumnIntact(mem, columns[k], 0, hi') {
      WiderColumn(mem, columns[k], 0, hi, hi');
    }
  }

  /** One more column, decoded between `lo` and `hi`. */
  lemma ColumnsSnoc(mem: seq<Byte>, mem': seq<Byte>, columns: seq<Column>, c: Column, lo: nat, hi: nat)
    requires ColumnsIntact(mem, columns, lo) && Untouched(mem', mem, lo, hi)
    requires ColumnIntact(mem', c, lo, hi) && ColumnIntact(mem', c, 0, |mem'|)
    ensures ColumnsIntact(mem', columns + [c], hi)
    ensures FieldsAt(mem', columns + [c], hi) == FieldsAt(mem, columns, lo) + [FieldAt(mem', c)]
  {
    hide ColumnIntact, FieldAt;
    ColumnsKept(mem, mem', columns, lo, hi);
    ColumnsWider(mem', columns, lo, hi);
    WiderColumn(mem', c, lo, hi, hi);
    var all := columns + [c];
    forall k | 0 <= k < |all| ensures ColumnIntact(mem', all[k], 0, hi) {
      if k < |columns| { assert all[k] == columns[k]; }
    }
    var fs := FieldsAt(mem', all, hi);
    assert fs[..|columns|] == FieldsAt(mem', columns, hi);
  }

  lemma {:induction false} CNameIs(s: seq<Byte>, n: nat)
    requires n <= |s| && (forall k :: 0 <= k < n ==> s[k] != 0) && (n < |s| ==> s[n] == 0)
    ensures CName(s) == s[..n]
    decreases n
  {
    if n > 0 {
      CNameIs(s[1..], n - 1);
      assert s[..n] == [s[0]] + s[1..][..n - 1];
    }
  }

  /** A C string is read up to its NUL. */
  method CString(str: array<Byte>, s: Str) returns (r: seq<Byte>)
    requires Intact(str[..], s, 0, str.Length)
    ensures r == CName(str[s.off..s.off + s.len])
  {
    hide CName;
    var j := s.off;
    while str[j] != 0
      invariant s.off <= j <= s.off + s.len
      invariant forall k :: s.off <= k < j ==> str[k] != 0
      decreases s.off + s.len - j
    {
      j := j + 1;
    }
    r := str[s.off..j];
    ghost var all := str[s.off..s.off + s.len];
    CNameIs(all, j - s.off);
    assert all[..j - s.off] == r;
  }

  class Client {
    var str: array<Byte>
    var length: nat
    var offset: nat
    var state: P.ReadState
    var numColumn: nat
    var columns: seq<Column>   // the first index_column columns
    var homes: seq<nat>        // the memory block each of them points into
    var block: nat             // the memory block the buffer is in
    ghost var left: nat        // how many columns point into a block that the buffer has left
    var rows: seq<Row>
    var warnings: nat
    var status: nat
    var reply: P.Reply

    ghost predicate Valid()
      reads this, str
    {
      && offset <= length <= str.Length
      && ColumnsIntact(str[..], columns, offset) && |columns| <= numColumn
      && Placed()
      && (state == P.ReadStart ==> columns == []) && (state == P.ReadRow ==> |columns| == numColumn)
    }

    /** The columns that were left behind are the first ones. */
    ghost predicate Placed()
      reads this`columns, this`homes, this`block, this`left
    {
      && |homes| == |columns| && left <= |homes|
      && forall k :: 0 <= k < |homes| ==> homes[k] <= block && (homes[k] != block <==> k < left)
    }

    /** The client as deliveries see it, `o` being how the last call ended. */
    ghost function AsLink(o: P.Outcome): F.Link
      reads this, str
      requires Valid()
    {
      F.Link(View(), length, str.Length, left, o)
    }

    /** The client as the parser on values sees it, the columns being looked up in the buffer. */
    ghost function View(): (p: P.Parser)
      reads this, str
      requires Valid()
      ensures p.Valid()
    {
      P.Parser(state, str[offset..length], numColumn, FieldsAt(str[..], columns, offset), rows, warnings, status, reply)
    }

    constructor (size: nat)
      ensures Valid() && fresh(str) && AsLink(P.Again) == F.Start(size)
    {
      str := new Byte[size](_ => 0);
      length, offset, state, numColumn, columns, rows := 0, 0, P.ReadStart, 0, [], [];
      homes, block, left := [], 0, 0;
      warnings, status, reply := 0, 0, P.NoReply;
    }

    /** The complete column packet at `offset`, its length being `n`. */
    method TakeColumn(n: nat) returns (o: P.Outcome)
      requires Valid() && |columns| < numColumn && state == P.ReadField
      requires offset + 4 + n <= length && n == Le(str[offset..offset + 3])
      modifies this`offset, this`columns, this`homes, str
      ensures Valid() && offset >= old(offset) && old(columns) <= columns
      ensures o == P.Finished ==>
                |columns| == |old(columns)| + 1 && P.ReadColumns(View()) == P.ReadColumns(old(View()))
      ensures o != P.Finished ==> o in {P.Mangled, P.Wild} && o == P.ReadColumns(old(View())).outcome
    {
      hide P.ReadColumns, DecodeField, ColumnsIntact, Untouched, FieldsAt, FieldAt, ColumnIntact, Le, Placed;
      ghost var p, mem := View(), str[..];
      assert p.unread[..3] == str[offset..offset + 3];
      SliceOfSlice(str[..], offset, length, 4, 4 + n);
      var c := DecodeInPlace(str, offset + 4, n);
      if c.ColumnOk? {
        ColumnTaken(p, mem, str[..], columns, c.column, offset, length, n);
        AddColumn(c.column, n);
        assert View() == p.(fields := FieldsAt(str[..], columns, offset), unread := str[offset..length]);
        return P.Finished;
      }
      ColumnsNext(p, n);
      PacketTouched(str[..], mem, columns, offset, offset + 4, offset + 4 + n);
      return if c.ColumnErr? then P.Mangled else P.Wild;
    }

    /** The column is the next one, and is in the buffer where it is now. */
    method AddColumn(c: Column, n: nat)
      requires Placed() && |columns| < numColumn && state == P.ReadField && offset + 4 + n <= length <= str.Length
      requires ColumnsIntact(str[..], columns + [c], offset + 4 + n)
      modifies this`offset, this`columns, this`homes
      ensures Valid() && offset == old(offset) + 4 + n && columns == old(columns) + [c]
    {
      hide ColumnsIntact;
      columns, offset, homes := columns + [c], offset + 4 + n, homes + [block];
    }

    /** One round of the column loop: `Finished` when a column was decoded. */
    method NextColumn() returns (o: P.Outcome)
      requires Valid() && |columns| < numColumn && state == P.ReadField
      modifies this`offset, this`columns, this`homes, str
      ensures Valid() && offset >= old(offset) && old(columns) <= columns
      ensures o == P.Finished ==>
                |columns| == |old(columns)| + 1 && P.ReadColumns(View()) == P.ReadColumns(old(View()))
      ensures o != P.Finished ==> o == P.ReadColumns(old(View())).outcome
      ensures o !in {P.Finished, P.Mangled, P.Wild} ==> View() == P.ReadColumns(old(View())).parser
    {
      hide P.ReadColumns, ColumnsIntact, FieldsAt, Le;
      ghost var p := View();
      if length - offset < 4 {
        ColumnsShort(p);
        return P.OverRead;
      }
      var n := Le(str[offset..offset + 3]);
      assert p.unread[..3] == str[offset..offset + 3];
      if length - offset - 4 < n {
        ColumnsShort(p);
        return P.Again;
      }
      o := TakeColumn(n);
    }

    /** The EOF packet behind the last column. */
    method ReadColumnsEof() returns (o: P.Outcome)
      requires Valid() && |columns| == numColumn
      modifies this`offset, this`warnings, this`status
      ensures Valid() && offset >= old(offset) && P.ReadColumns(old(View())) == P.Result(o, View())
    {
      hide P.ReadColumns, ColumnsIntact, Le;
      ghost var p := View();
      ColumnsLast(p);
      if length - offset < P.EOF_SIZE || str[offset + 4] != 254 { return P.Again; }
      SliceOfSlice(str[..], offset, length, 5, 7);
      SliceOfSlice(str[..], offset, length, 7, 9);
      warnings, status := Le(str[offset + 5..offset + 7]), Le(str[offset + 7..offset + 9]);
      ColumnsWider(str[..], columns, offset, offset + P.EOF_SIZE);
      offset := offset + P.EOF_SIZE;
      assert p.unread[P.EOF_SIZE..] == str[offset..length];
      return P.Finished;
    }

    /** mysql_read_columns. `offset` and the column index only grow. */
    method ReadColumns() returns (o: P.Outcome)
      requires Valid() && state == P.ReadField
      modifies this`offset, this`columns, this`homes, this`warnings, this`status, str
      ensures Valid() && offset >= old(offset) && old(columns) <= columns
      ensures o == P.Finished ==> |columns| == numColumn
      ensures o == P.ReadColumns(old(View())).outcome
      ensures o !in {P.Mangled, P.Wild} ==> View() == P.ReadColumns(old(View())).parser
    {
      hide P.ReadColumns, ColumnsIntact;
      while |columns| < numColumn
        invariant Valid() && offset >= old(offset) && old(columns) <= columns
        invariant P.ReadColumns(View()) == P.ReadColumns(old(View()))
        decreases numColumn - |columns|
      {
        o := NextColumn();
        if o != P.Finished { return; }
      }
      o := ReadColumnsEof();
    }

    /** The name and type of a decoded column, as the row decoder sees them. */
    lemma ColumnSeen(k: nat)
      requires Valid() && k < |columns|
      ensures var c, f := columns[k], FieldsAt(str[..], columns, offset)[k];
              && |c.strings| == STRINGS && |f.strings| == STRINGS && f.ctype == c.ctype
              && Intact(str[..], c.strings[NAME], 0, str.Length)
              && f.strings[NAME] == str[c.strings[NAME].off..c.strings[NAME].off + c.strings[NAME].len]
    {
      var c := columns[k];
      WiderColumn(str[..], c, 0, offset, str.Length);
      assert Intact(str[..], c.strings[NAME], 0, str.Length);
      assert FieldsAt(str[..], columns, offset)[k] == FieldAt(str[..], c);
    }

    /** mysql_decode_row on the packet at `base`; `None` when it reads the name of a column that was
        left behind. */
    method DecodeRow(base: nat, len: nat) returns (r: Option<RowResult>)
      requires Valid() && base + len <= str.Length
      ensures var fields, packet := FieldsAt(str[..], columns, offset), str[base..base + len];
              && (r.None? <==> CellsReadName(fields, left, packet, 0))
              && (r.Some? ==> r.value == MysqlRow.DecodeRow(fields, packet))
    {
      hide ReadSpan, CName, ColumnsIntact, Intact, DecodeCells, CellsReadName, NamesColumn, TextType, PutCell, Placed;
      ghost var fields := FieldsAt(str[..], columns, offset);
      var p := str[base..base + len];
      var row: Row, i, k := map[], 0, 0;
      assert fields[0..] == fields;
      while k < |columns|
        invariant 0 <= k <= |columns| && 0 <= i <= len
        invariant DecodeCells(fields, p, 0, map[]) == DecodeCells(fields[k..], p, i, row)
        invariant CellsReadName(fields, left, p, 0) <==> CellsReadName(fields[k..], Less(left, k), p, i)
      {
        CellsNext(fields, k, p, i, row);
        CellNamesNext(fields, k, left, p, i);
        var d := ReadSpan(p, i);
        if d.SpanErr? { return Some(RowErr(d.code)); }
        if d.SpanWild? { return Some(RowWild); }
        var entered := AddCell(row, k, if d.nul then Null else Text(p[d.start..d.start + d.size]));
        if entered.None? { return None; }
        row, i, k := entered.value, d.start + d.size, k + 1;
      }
      r := Some(RowOk(row));
      CellsLast(fields, k, left, p, i, row);
    }

    /** The value of column `k` entered into a row under the column's name, which is read only then;
        `None` when the column was left behind. */
    method AddCell(row: Row, k: nat, cell: Cell) returns (r: Option<Row>)
      requires Valid() && k < |columns|
      ensures var f := FieldsAt(str[..], columns, offset)[k];
              && (r.None? <==> k < left && NamesColumn(f, cell))
              && (r.Some? ==> r.value == PutCell(row, f, cell))
    {
      hide CName, ColumnsIntact, Intact, TextType;
      ColumnSeen(k);
      var none, text := cell.Null? || columns[k].ctype == 6, TextType(columns[k].ctype);
      if !none && !text { return Some(row); }
      if homes[k] != block { return None; }
      var name := CString(str, columns[k].strings[NAME]);
      r := Some(row[name := if none then Null else cell]);
    }

    /** The complete row packet at `offset`, its length being `n`: `None` when it was added. */
    method AddRow(n: nat) returns (o: Option<P.Outcome>)
      requires Valid() && offset + 4 + n <= length && n == Le(str[offset..offset + 3])
      requires !(length - offset == P.EOF_SIZE && str[offset + 4] == 254)
      modifies this`offset, this`rows
      ensures Valid() && offset >= old(offset) && old(rows) <= rows && RowRound(old(View()), o)
      ensures o == None ==> offset > old(offset)
    {
      hide P.ReadRows, P.RowsReadName, ColumnsIntact, FieldsAt, MysqlRow.DecodeRow, CellsReadName, Le, Placed;
      ghost var p := View();
      assert p.unread[..3] == str[offset..offset + 3];
      P.RowsNext(p, n);
      P.NamesNext(p, left, n);
      var d := DecodeRow(offset + 4, n);
      SliceOfSlice(str[..], offset, length, 4, 4 + n);
      if d.None? { return Some(P.Dangling); }
      if d.value.RowErr? { return Some(P.Again); }
      if d.value.RowWild? { return Some(P.Wild); }
      StoreRow(d.value.row, n);
      return None;
    }

    /** One round of the row loop, as the parser on values goes: a name that was left behind is read,
        reading goes on from here, or it ends here. */
    ghost predicate RowRound(was: P.Parser, o: Option<P.Outcome>)
      reads this, str
      requires Valid() && was.Valid()
    {
      if o == Some(P.Dangling) then P.RowsReadName(was, left)
      else if o == None then
        P.ReadRows(View()) == P.ReadRows(was) && (P.RowsReadName(View(), left) <==> P.RowsReadName(was, left))
      else P.ReadRows(was) == P.Result(o.value, View()) && !P.RowsReadName(was, left)
    }

    method StoreRow(row: Row, n: nat)
      requires Valid() && offset + 4 + n <= length
      modifies this`offset, this`rows
      ensures Valid() && offset == old(offset) + 4 + n && rows == old(rows) + [row]
      ensures View() == old(View()).(rows := old(rows) + [row], unread := old(View()).unread[4 + n..])
    {
      hide ColumnsIntact, FieldsAt;
      ghost var p := View();
      ColumnsWider(str[..], columns, offset, offset + 4 + n);
      assert p.unread[4 + n..] == str[offset + 4 + n..length];
      rows, offset := rows + [row], offset + 4 + n;
    }

    /** One round of the row loop: `None` when a row was added. */
    method NextRow() returns (o: Option<P.Outcome>)
      requires Valid() && length > offset
      modifies this`offset, this`rows, this`warnings, this`status
      ensures Valid() && offset >= old(offset) && old(rows) <= rows && RowRound(old(View()), o)
      ensures o == None ==> offset > old(offset)
    {
      hide P.ReadRows, P.RowsReadName, ColumnsIntact, Le, Placed;
      ghost var p := View();
      if length - offset < 4 {
        RowsShort(p, left);
        return Some(P.Again);
      }
      if length - offset == P.EOF_SIZE && str[offset + 4] == 254 {
        RowsLast(p, left);
        SliceOfSlice(str[..], offset, length, 5, 7);
        SliceOfSlice(str[..], offset, length, 7, 9);
        warnings, status := Le(str[offset + 5..offset + 7]), Le(str[offset + 7..offset + 9]);
        return Some(P.Finished);
      }
      var n := Le(str[offset..offset + 3]);
      assert p.unread[..3] == str[offset..offset + 3];
      if length - offset - 4 < n {
        RowsShort(p, left);
        return Some(P.Again);
      }
      o := AddRow(n);
    }

    /** mysql_read_rows. */
    method ReadRows() returns (o: P.Outcome)
      requires Valid()
      modifies this`offset, this`rows, this`warnings, this`status
      ensures Valid() && offset >= old(offset) && old(rows) <= rows
      ensures o == P.Dangling <==> P.RowsReadName(old(View()), left)
      ensures o != P.Dangling ==> P.ReadRows(old(View())) == P.Result(o, View())
    {
      hide P.ReadRows, P.RowsReadName, ColumnsIntact, Placed;
      while length - offset > 0
        invariant Valid() && old(offset) <= offset && old(rows) <= rows
        invariant P.ReadRows(View()) == P.ReadRows(old(View()))
        invariant P.RowsReadName(View(), left) <==> P.RowsReadName(old(View()), left)
        decreases length - offset
      {
        var r := NextRow();
        if r.Some? { return r.value; }
      }
      RowsShort(View(), left);
      return P.Again;
    }

    /** The OK packet branch. */
    method ReadOk(b: seq<Byte>) returns (o: P.Outcome)
      requires Valid() && b == str[offset..length] && |b| >= 5
      modifies this`state, this`reply
      ensures Valid() && P.ReadOk(old(View())) == P.Result(o, View())
    {
      hide ColumnsIntact, Le, ReadLcb;
      var affected := ReadLcb(b[5..]);
      var i := 5 + P.Advance(affected);
      var insertId := ReadLcb(b[i..]);
      var j := i + P.Advance(insertId);
      if |b| < j + 4 { return P.OverRead; }
      state := P.ReadEnd;
      reply := P.OkReply(P.LcbValue(affected), P.LcbValue(insertId), Le(b[j..j + 2]), Le(b[j + 2..j + 4]));
      return P.Finished;
    }

    /** The READ_START branch: `Finished` with state `ReadField` when it is a result set. */
    method ReadHead() returns (o: P.Outcome)
      requires Valid() && state == P.ReadStart
      modifies this`offset, this`state, this`numColumn, this`columns, this`homes, this`reply
      ensures Valid() && offset >= old(offset)
      ensures P.ReadHead(old(View())) == P.Result(o, View())
    {
      hide ColumnsIntact, Le, ReadLcb, P.ReadOk, FieldsAt, Placed;
      var b := str[offset..length];
      if length - offset < 5 || length - offset - 4 < Le(b[..3]) { return P.Again; }
      if b[4] == 255 {
        if |b| < 13 { return P.OverRead; }
        state, reply := P.ReadEnd, P.ErrReply(Le(b[5..7]), b[8..13], b[13..]);
        return P.Finished;
      } else if b[4] == 254 {
        if |b| < 9 { return P.OverRead; }
        state, reply := P.ReadEnd, P.EofReply(Le(b[5..7]), Le(b[7..9]));
        return P.Finished;
      } else if b[4] == 0 {
        o := ReadOk(b);
        return;
      }
      var count := ReadLcb(b[4..]);
      if count.ShortLcb? { return P.Again; }
      if count.value >= TWO16 { return P.CountOverflow; }
      StartColumns(count.value, count.used);
      return P.Finished;
    }

    /** The column count has been read: a result set begins. */
    method StartColumns(count: nat, used: nat)
      requires Valid() && state == P.ReadStart && offset + 4 + used <= length
      modifies this`offset, this`state, this`numColumn, this`columns, this`homes
      ensures Valid() && offset >= old(offset)
      ensures View() == old(View()).(state := P.ReadField, numColumn := count, fields := [],
                                     unread := old(View()).unread[4 + used..])
    {
      hide ColumnsIntact, FieldsAt;
      ghost var p := View();
      NoColumns(str[..], offset + 4 + used);
      offset, state, numColumn, columns, homes := offset + 4 + used, P.ReadField, count, [], [];
      assert str[offset..length] == p.unread[4 + used..];
    }

    /** The rest of a call once the column count is known. */
    method ResponseColumns() returns (o: P.Outcome)
      requires Valid() && state == P.ReadField
      modifies this, str
      ensures Valid() && str == old(str) && length == old(length) && left == old(left)
      ensures offset >= old(offset) && old(columns) <= columns && old(rows) <= rows
      ensures o == P.Dangling <==>
              P.AfterColumns(old(View())).Some? && P.RowsReadName(P.AfterColumns(old(View())).value, left)
      ensures o != P.Dangling ==> o == P.ResponseColumns(old(View())).outcome
      ensures o !in {P.Mangled, P.Wild, P.Dangling} ==> View() == P.ResponseColumns(old(View())).parser
    {
      hide P.ReadColumns, P.ReadRows, P.RowsReadName, ColumnsIntact, Placed;
      o := ReadColumns();
      if o != P.Finished { return; }
      state := P.ReadRow;
      o := ReadRows();
      if o == P.Finished { state := P.ReadEnd; }
    }

    /** mysql_response. */
    method Response() returns (o: P.Outcome)
      requires Valid()
      modifies this, str
      ensures Valid() && str == old(str) && length == old(length) && left == old(left)
      ensures offset >= old(offset) && old(rows) <= rows
      ensures old(state) != P.ReadStart ==> old(columns) <= columns
      ensures o == P.Dangling <==> P.ReadsName(old(View()), left)
      ensures o != P.Dangling ==> o == P.Response(old(View())).outcome
      ensures o !in {P.Mangled, P.Wild, P.Dangling} ==> View() == P.Response(old(View())).parser
    {
      hide P.ReadHead, P.ResponseColumns, P.AfterColumns, P.ReadRows, P.RowsReadName, ColumnsIntact, Placed;
      var n := length - offset;
      if n == 0 { return P.Finished; }
      match state {
        case ReadStart =>
          o := ReadHead();
          n := n - 5;
          if o == P.Finished && state == P.ReadField && n > 0 {
            o := ResponseColumns();
          }
        case ReadField =>
          o := ResponseColumns();
        case ReadRow =>
          o := ReadRows();
          if o == P.Finished { state := P.ReadEnd; }
        case ReadEnd =>
          o := P.Again;
      }
    }

    /** One delivery, as the socket hands it over: no more than fits. When it fills the buffer the
        code makes room, where the buffer may move, and reads again before it parses. */
    method Receive(data: seq<Byte>, moves: bool) returns (o: P.Outcome)
      requires Valid() && 0 < |data| <= str.Length - length
      modifies this, str
      ensures Valid() && (str == old(str) || fresh(str)) && length == old(length) + |data| < str.Length
              && offset >= old(offset)
      ensures var t := F.Deliver(old(AsLink(P.Again)), F.Data(data, moves));
              o == t.outcome && str.Length == t.size && (o !in {P.Mangled, P.Wild, P.Dangling} ==> AsLink(o) == t)
    {
      hide P.Response, P.ReadsName, ColumnsIntact, Placed;
      Append(data);
      if length == str.Length {
        Extend(moves);
        return P.Again;
      }
      o := Response();
    }

    /** recv has nothing for now: what has been received is parsed. */
    method WouldBlock() returns (o: P.Outcome)
      requires Valid()
      modifies this, str
      ensures Valid() && str == old(str) && length == old(length) && offset >= old(offset)
      ensures var t := F.Deliver(old(AsLink(P.Again)), F.Block);
              o == t.outcome && (o !in {P.Mangled, P.Wild, P.Dangling} ==> AsLink(o) == t)
    {
      hide P.Response, P.ReadsName, ColumnsIntact, Placed;
      o := Response();
    }

    /** swoole_mysql_onRead, as often as the socket is readable, until a response is complete: the
        client ends as the deliveries say. */
    method OnRead(es: seq<F.Event>) returns (o: P.Outcome)
      requires Valid() && F.Feasible(length, str.Length, es)
      modifies this, str
      ensures Valid()
      ensures var t := F.Feed(old(AsLink(P.Again)), es);
              o == t.outcome && (o !in {P.Mangled, P.Wild, P.Dangling} ==> AsLink(o) == t)
    {
      hide F.Deliver, ColumnsIntact, Placed;
      o := P.Again;
      var i := 0;
      assert es[0..] == es;
      while i < |es| && o == P.Again
        invariant 0 <= i <= |es| && Valid() && (str == old(str) || fresh(str))
        invariant o == P.Again ==> F.Feasible(length, str.Length, es[i..])
        invariant o !in {P.Mangled, P.Wild, P.Dangling} ==>
                    F.Feed(AsLink(o), es[i..]) == F.Feed(old(AsLink(P.Again)), es)
        invariant o in {P.Mangled, P.Wild, P.Dangling} ==> o == F.Feed(old(AsLink(P.Again)), es).outcome
        decreases |es| - i
      {
        ghost var l, rest := AsLink(P.Again), es[i..];
        assert rest[0] == es[i] && rest[1..] == es[i + 1..];
        F.DeliverSizes(l, rest);
        match es[i] {
          case Data(data, moves) => o := Receive(data, moves);
          case Block => o := WouldBlock();
        }
        if o != P.Again { F.Ended(F.Deliver(l, es[i]), es[i + 1..]); }
        i := i + 1;
      }
      if o != P.Again && o !in {P.Mangled, P.Wild, P.Dangling} { F.Ended(AsLink(o), es[i..]); }
    }

    method Append(data: seq<Byte>)
      requires Valid() && |data| <= str.Length - length
      modifies this`length, str
      ensures Valid() && length == old(length) + |data|
      ensures View() == old(View()).More(data)
    {
      hide ColumnsIntact;
      ghost var mem, p := str[..], View();
      forall k | 0 <= k < |data| {
        str[length + k] := data[k];
      }
      ColumnsWider(mem, columns, offset, length);
      assert Untouched(str[..], mem, length, length + |data|);
      BelowKept(str[..], mem, columns, offset, length, length + |data|);
      assert str[..][offset..length] == mem[offset..length] by {
        UntouchedSlice(str[..], mem, length, length + |data|, offset, length);
      }
      length := length + |data|;
      assert str[offset..length] == p.unread + data;
    }

    /** swString_extend to twice the size. The block may move, and then the columns that have been
        decoded point to where it was. */
    method Extend(moves: bool)
      requires Valid() && str.Length > 0
      modifies this`str, this`block, this`left
      ensures Valid() && fresh(str) && str.Length == 2 * old(str.Length)
      ensures View() == old(View())
      ensures left == if moves then |columns| else old(left)
    {
      hide ColumnsIntact;
      ghost var mem := str[..];
      var size := str.Length;
      var bigger := new Byte[2 * size](_ => 0);
      forall k | 0 <= k < size {
        bigger[k] := str[k];
      }
      assert bigger[..][..size] == mem;
      ColumnsLonger(mem, bigger[..], columns, offset);
      assert bigger[offset..length] == mem[offset..length];
      str := bigger;
      if moves {
        block, left := block + 1, |columns|;
      }
    }
  }

  /** A column packet was decoded in place: the parser on values with the new column is one round further. */
  lemma ColumnTaken(p: P.Parser, mem: seq<Byte>, mem': seq<Byte>, columns: seq<Column>, c: Column,
                    offset: nat, length: nat, n: nat)
    requires p.Valid() && |p.fields| < p.numColumn && offset + 4 + n <= length <= |mem|
    requires ColumnsIntact(mem, columns, offset) && p.fields == FieldsAt(mem, columns, offset)
    requires p.unread == mem[offset..length] && n == Le(p.unread[..3])
    requires Untouched(mem', mem, offset + 4, offset + 4 + n)
    requires ColumnIntact(mem', c, offset + 4, offset + 4 + n) && ColumnIntact(mem', c, 0, |mem'|)
    requires DecodeField(p.unread[4..4 + n]) == FieldOk(FieldAt(mem', c))
    ensures ColumnsIntact(mem', columns + [c], offset + 4 + n) && offset + 4 + n <= length <= |mem'|
    ensures var q := p.(fields := FieldsAt(mem', columns + [c], offset + 4 + n),
                        unread := mem'[offset + 4 + n..length]);
            q.Valid() && P.ReadColumns(q) == P.ReadColumns(p)
  {
    hide P.ReadColumns, DecodeField, ColumnsIntact, Untouched, FieldsAt, FieldAt, ColumnIntact, Le;
    ColumnsNext(p, n);
    ColumnsWider(mem, columns, offset, offset + 4);
    ColumnsSnoc(mem, mem', columns, c, offset + 4, offset + 4 + n);
    BehindPacket(mem', mem, offset, length, n);
  }

  /** What is behind a packet that was decoded in place is as it was. */
  lemma BehindPacket(mem': seq<Byte>, mem: seq<Byte>, offset: nat, length: nat, n: nat)
    requires offset + 4 + n <= length <= |mem| && Untouched(mem', mem, offset + 4, offset + 4 + n)
    ensures |mem'| == |mem| && mem'[offset + 4 + n..length] == mem[offset..length][4 + n..]
  {
    UntouchedSlice(mem', mem, offset + 4, offset + 4 + n, offset + 4 + n, length);
  }

  function Less(a: nat, b: nat): nat {
    if a < b then 0 else a - b
  }

  /** A decode that failed has touched nothing but its own packet. */
  lemma PacketTouched(mem': seq<Byte>, mem: seq<Byte>, columns: seq<Column>, offset: nat, lo: nat, hi: nat)
    requires ColumnsIntact(mem, columns, offset) && offset <= lo && Untouched(mem', mem, lo, hi)
    ensures ColumnsIntact(mem', columns, offset)
  {
    assert Untouched(mem', mem, offset, hi) by {
      UntouchedSlice(mem', mem, lo, hi, 0, offset);
      assert mem'[..offset] == mem'[0..offset] && mem[..offset] == mem[0..offset];
    }
    ColumnsKept(mem, mem', columns, offset, hi);
  }

  lemma NoColumns(mem: seq<Byte>, hi: nat)
    requires hi <= |mem|
    ensures ColumnsIntact(mem, [], hi) && FieldsAt(mem, [], hi) == []
  {
  }

  lemma BelowKept(mem': seq<Byte>, mem: seq<Byte>, columns: seq<Column>, offset: nat, lo: nat, hi: nat)
    requires ColumnsIntact(mem, columns, offset) && offset <= lo && Untouched(mem', mem, lo, hi)
    ensures ColumnsIntact(mem', columns, offset)
    ensures FieldsAt(mem', columns, offset) == FieldsAt(mem, columns, offset)
  {
    assert Untouched(mem', mem, offset, hi) by {
      UntouchedSlice(mem', mem, lo, hi, 0, offset);
      assert mem'[..offset] == mem'[0..offset] && mem[..offset] == mem[0..offset];
    }
    ColumnsKept(mem, mem', columns, offset, hi);
  }

  /** A longer buffer that starts with the old one. */
  lemma ColumnsLonger(mem: seq<Byte>, mem': seq<Byte>, columns: seq<Column>, hi: nat)
    requires ColumnsIntact(mem, columns, hi) && |mem| <= |mem'| && mem'[..|mem|] == mem
    ensures ColumnsIntact(mem', columns, hi)
    ensures FieldsAt(mem', columns, hi) == FieldsAt(mem, columns, hi)
  {
    hide ColumnIntact, FieldAt;
    forall k | 0 <= k < |columns|
      ensures ColumnIntact(mem', columns[k], 0, hi)
      ensures ColumnIntact(mem, columns[k], 0, |mem|) && ColumnIntact(mem', columns[k], 0, |mem'|)
      ensures FieldAt(mem', columns[k]) == FieldAt(mem, columns[k])
    {
      ColumnLonger(mem, mem', columns[k], hi);
    }
  }

  lemma ColumnLonger(mem: seq<Byte>, mem': seq<Byte>, c: Column, hi: nat)
    requires ColumnIntact(mem, c, 0, hi) && |mem| <= |mem'| && mem'[..|mem|] == mem
    ensures ColumnIntact(mem', c, 0, hi)
    ensures ColumnIntact(mem, c, 0, |mem|) && ColumnIntact(mem', c, 0, |mem'|)
    ensures FieldAt(mem', c) == FieldAt(mem, c)
  {
    forall s: Str | Intact(mem, s, 0, hi)
      ensures Intact(mem', s, 0, hi) && Held(mem', s) == Held(mem, s)
    {
      SliceOfPrefix(mem', |mem|, s.off, s.off + s.len);
      assert mem'[..|mem|][s.off + s.len] == mem[s.off + s.len];
    }
    assert StringsAt(mem', c.strings) == StringsAt(mem, c.strings);
  }

  lemma CellsNext(fields: seq<Field>, k: nat, p: seq<Byte>, i: nat, row: Row)
    requires NamedFields(fields) && k < |fields| && i <= |p|
    ensures match ReadSpan(p, i)
            case SpanErr(code) => DecodeCells(fields[k..], p, i, row) == RowErr(code)
            case SpanWild => DecodeCells(fields[k..], p, i, row) == RowWild
            case Span(start, size, nul) =>
              DecodeCells(fields[k..], p, i, row) ==
              DecodeCells(fields[k + 1..], p, start + size,
                          PutCell(row, fields[k], if nul then Null else Text(p[start..start + size])))
  {
    hide ReadSpan, PutCell;
    assert fields[k..][1..] == fields[k + 1..] && fields[k..][0] == fields[k];
  }

  lemma CellNamesNext(fields: seq<Field>, k: nat, left: nat, p: seq<Byte>, i: nat)
    requires k < |fields| && i <= |p|
    ensures var d := ReadSpan(p, i);
            CellsReadName(fields[k..], Less(left, k), p, i) <==>
            && d.Span?
            && ((k < left && NamesColumn(fields[k], if d.nul then Null else Text(p[d.start..d.start + d.size])))
                || CellsReadName(fields[k + 1..], Less(left, k + 1), p, d.start + d.size))
  {
    hide ReadSpan, NamesColumn;
    assert fields[k..][1..] == fields[k + 1..] && fields[k..][0] == fields[k];
  }

  lemma CellsLast(fields: seq<Field>, k: nat, left: nat, p: seq<Byte>, i: nat, row: Row)
    requires NamedFields(fields) && k == |fields| && i <= |p|
    ensures DecodeCells(fields[k..], p, i, row) == RowOk(row) && !CellsReadName(fields[k..], Less(left, k), p, i)
  {
  }

  // The three ways through one round of P.ReadColumns.

  lemma ColumnsShort(p: P.Parser)
    requires p.Valid() && |p.fields| < p.numColumn
    requires |p.unread| < 4 || |p.unread| - 4 < Le(p.unread[..3])
    ensures P.ReadColumns(p) == P.Result(if |p.unread| < 4 then P.OverRead else P.Again, p)
  {
  }

  lemma ColumnsNext(p: P.Parser, n: nat)
    requires p.Valid() && |p.fields| < p.numColumn
    requires |p.unread| >= 4 + n && n == Le(p.unread[..3])
    ensures match DecodeField(p.unread[4..4 + n])
            case FieldErr(_) => P.ReadColumns(p).outcome == P.Mangled
            case FieldWild => P.ReadColumns(p).outcome == P.Wild
            case FieldOk(f) =>
              P.ReadColumns(p) == P.ReadColumns(p.(fields := p.fields + [f], unread := p.unread[4 + n..]))
  {
    hide DecodeField, Le;
  }

  lemma ColumnsLast(p: P.Parser)
    requires p.Valid() && |p.fields| == p.numColumn
    ensures P.ReadColumns(p) ==
            if |p.unread| < P.EOF_SIZE || !P.IsEof(p.unread) then P.Result(P.Again, p)
            else P.Result(P.Finished, P.WithEof(p).(unread := p.unread[P.EOF_SIZE..]))
  {
  }

  // The ways through one round of P.ReadRows.

  lemma RowsShort(p: P.Parser, left: nat)
    requires p.Valid() && !(|p.unread| == P.EOF_SIZE && P.IsEof(p.unread))
    requires |p.unread| < 4 || |p.unread| - 4 < Le(p.unread[..3])
    ensures P.ReadRows(p) == P.Result(P.Again, p) && !P.RowsReadName(p, left)
  {
  }

  lemma RowsLast(p: P.Parser, left: nat)
    requires p.Valid() && |p.unread| == P.EOF_SIZE && P.IsEof(p.unread)
    ensures P.ReadRows(p) == P.Result(P.Finished, P.WithEof(p)) && !P.RowsReadName(p, left)
  {
  }
}
