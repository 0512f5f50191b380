/**
  * The resumable response parser of swoole_mysql.c, on values. `Parser.unread`
  * is what the receive buffer holds between `offset` and `length`.
  */
module MysqlParser {
  import opened Options
  import opened Bytes
  import opened MysqlWire
  import opened MysqlField
  import opened MysqlRow

  datatype ReadState = ReadStart | ReadField | ReadRow | ReadEnd

  datatype Reply =
    | NoReply
    | OkReply(affected: nat, insertId: nat, status: nat, warnings: nat)
    | ErrReply(code: nat, sqlState: seq<Byte>, message: seq<Byte>)
    | EofReply(warnings: nat, status: nat)

  datatype Parser = Parser(
    state: ReadState, unread: seq<Byte>,
    numColumn: nat, fields: seq<Field>, rows: seq<Row>,
    warnings: nat, status: nat, reply: Reply)
  {
    ghost predicate Valid() {
      NamedFields(fields) && |fields| <= numColumn && (state == ReadRow ==> |fields| == numColumn)
    }

    function More(v: seq<Byte>): Parser {
      this.(unread := unread + v)
    }
  }

  /** How a call ends. The code returns SW_ERR for `Again` and SW_OK for `Finished`. After
      `Mangled` it looks for an EOF packet where the broken packet stands, and returns either. For
      the rest C gives no meaning to what it does next. */
  datatype Outcome =
    | Again
    | Finished
    | OverRead       // went on with bytes that were never received
    | Mangled        // a column packet failed half-way through its in-place decode
    | CountOverflow  // a column count over 16 bits was stored over its neighbours
    | Wild           // a length wrapped around 2^64
    | Dangling       // a column's name was read where the buffer no longer is; not on values

  datatype Result = Result(outcome: Outcome, parser: Parser)

  const EOF_SIZE: nat := 9

  function Initial(): Parser {
    Parser(ReadStart, [], 0, [], [], 0, 0, NoReply)
  }

  /** mysql_read_eof with at least nine bytes at hand. */
  predicate IsEof(b: seq<Byte>)
    requires |b| >= EOF_SIZE
  {
    b[4] == 254
  }

  function WithEof(p: Parser): Parser
    requires |p.unread| >= EOF_SIZE
  {
    p.(warnings := Le(p.unread[5..7]), status := Le(p.unread[7..9]))
  }

  /** mysql_read_columns. With fewer than four bytes the unsigned `n_buf - 4` wraps
      and the length check passes, so the code reads past what it received. */
  function ReadColumns(p: Parser): (r: Result)
    requires p.Valid()
    ensures r.parser.Valid() && r.parser.numColumn == p.numColumn
    ensures r.outcome != Dangling && (r.outcome == Finished ==> |r.parser.fields| == r.parser.numColumn)
    decreases p.numColumn - |p.fields|
  {
    if |p.fields| < p.numColumn then
      if |p.unread| < 4 then Result(OverRead, p)
      else
        var n := Le(p.unread[..3]);
        if |p.unread| - 4 < n then Result(Again, p)
        else
          match DecodeField(p.unread[4..4 + n])
          case FieldErr(_) => Result(Mangled, p)
          case FieldWild => Result(Wild, p)
          case FieldOk(f) => ReadColumns(p.(fields := p.fields + [f], unread := p.unread[4 + n..]))
    else if |p.unread| < EOF_SIZE || !IsEof(p.unread) then Result(Again, p)
    else Result(Finished, WithEof(p).(unread := p.unread[EOF_SIZE..]))
  }

  /** mysql_read_rows. The end is only recognised when exactly the nine bytes of
      an EOF packet are left; they stay in the buffer. */
  function ReadRows(p: Parser): (r: Result)
    requires p.Valid()
    ensures r.parser.Valid() && r.parser.fields == p.fields && r.parser.numColumn == p.numColumn
    ensures r.outcome != Dangling
    decreases |p.unread|
  {
    if |p.unread| < 4 then Result(Again, p)
    else if |p.unread| == EOF_SIZE && IsEof(p.unread) then Result(Finished, WithEof(p))
    else
      var n := Le(p.unread[..3]);
      if |p.unread| - 4 < n then Result(Again, p)
      else
        match DecodeRow(p.fields, p.unread[4..4 + n])
        case RowErr(_) => Result(Again, p)
        case RowWild => Result(Wild, p)
        case RowOk(row) => ReadRows(p.(rows := p.rows + [row], unread := p.unread[4 + n..]))
  }

  /** The step over a length-encoded integer whose result is not checked. */
  function Advance(l: Lcb): int {
    if l.ShortLcb? then -1 else l.used
  }

  function LcbValue(l: Lcb): nat {
    if l.ShortLcb? then 0 else l.value
  }

  /** The OK packet branch: two integers and two 16-bit fields after the type byte. */
  function ReadOk(p: Parser): Result
    requires |p.unread| >= 5
  {
    var b := p.unread;
    var affected := ReadLcb(b[5..]);
    var i := 5 + Advance(affected);
    var insertId := ReadLcb(b[i..]);
    var j := i + Advance(insertId);
    if |b| < j + 4 then Result(OverRead, p)
    else
      Result(Finished, p.(state := ReadEnd,
             reply := OkReply(LcbValue(affected), LcbValue(insertId), Le(b[j..j + 2]), Le(b[j + 2..j + 4]))))
  }

  /** The READ_START branch up to the point where it returns or goes on. */
  function ReadHead(p: Parser): (r: Result)
    requires p.Valid()
    ensures r.parser.Valid() && r.outcome != Dangling
  {
    var b := p.unread;
    if |b| < 5 || |b| - 4 < Le(b[..3]) then Result(Again, p)
    else if b[4] == 255 then
      if |b| < 13 then Result(OverRead, p)
      else Result(Finished, p.(state := ReadEnd, reply := ErrReply(Le(b[5..7]), b[8..13], b[13..])))
    else if b[4] == 254 then
      if |b| < 9 then Result(OverRead, p)
      else Result(Finished, p.(state := ReadEnd, reply := EofReply(Le(b[5..7]), Le(b[7..9]))))
    else if b[4] == 0 then ReadOk(p)
    else
      match ReadLcb(b[4..])
      case ShortLcb => Result(Again, p)
      case Lcb(n, _, used) =>
        if n >= TWO16 then Result(CountOverflow, p)
        else Result(Finished, p.(state := ReadField, numColumn := n, fields := [], unread := b[4 + used..]))
  }

  function ResponseRows(p: Parser): (r: Result)
    requires p.Valid()
    ensures r.parser.Valid() && r.outcome != Dangling
  {
    var rows := ReadRows(p);
    if rows.outcome == Finished then rows.(parser := rows.parser.(state := ReadEnd)) else rows
  }

  function ResponseColumns(p: Parser): (r: Result)
    requires p.Valid()
    ensures r.parser.Valid() && r.outcome != Dangling
  {
    var columns := ReadColumns(p);
    if columns.outcome == Finished then ResponseRows(columns.parser.(state := ReadRow)) else columns
  }

  /** mysql_response. Its loop runs on while its own count of bytes is positive; that
      count is not updated after the column count, and it is one byte header-relative,
      so a delivery that ends with a one-byte count stops there and reports success. */
  function Response(p: Parser): (r: Result)
    requires p.Valid()
    ensures r.parser.Valid() && r.outcome != Dangling
  {
    if p.unread == [] then Result(Finished, p)
    else
      match p.state
      case ReadStart =>
        var head := ReadHead(p);
        if head.outcome == Finished && head.parser.state == ReadField && |p.unread| > 5
        then ResponseColumns(head.parser)
        else head
      case ReadField => ResponseColumns(p)
      case ReadRow => ResponseRows(p)
      case ReadEnd => Result(Again, p)
  }

  /** The parser as it comes to the rows in this call, if it does. */
  function RowPhase(p: Parser): (r: Option<Parser>)
    requires p.Valid()
    ensures r.Some? ==> r.value.Valid() && r.value.state == ReadRow
  {
    if p.unread == [] then None
    else
      match p.state
      case ReadStart =>
        var head := ReadHead(p);
        if head.outcome == Finished && head.parser.state == ReadField && |p.unread| > 5 then AfterColumns(head.parser)
        else None
      case ReadField => AfterColumns(p)
      case ReadRow => Some(p)
      case ReadEnd => None
  }

  function AfterColumns(p: Parser): (r: Option<Parser>)
    requires p.Valid()
    ensures r.Some? ==> r.value.Valid() && r.value.state == ReadRow
  {
    var columns := ReadColumns(p);
    if columns.outcome == Finished then Some(columns.parser.(state := ReadRow)) else None
  }

  /** A complete packet that is taken for a row. */
  predicate HasRow(u: seq<Byte>) {
    |u| >= 4 && !(|u| == EOF_SIZE && IsEof(u)) && |u| - 4 >= Le(u[..3])
  }

  /** Row reading comes to a row for which it reads one of the first `left` column names. */
  predicate RowsReadName(p: Parser, left: nat)
    requires p.Valid()
    decreases |p.unread|
  {
    HasRow(p.unread) &&
    var payload := p.unread[4..4 + Le(p.unread[..3])];
    || CellsReadName(p.fields, left, payload, 0)
    || (match DecodeRow(p.fields, payload)
        case RowOk(row) => RowsReadName(p.(rows := p.rows + [row], unread := p.unread[4 + |payload|..]), left)
        case _ => false)
  }

  /** The call reads one of the first `left` column names. */
  predicate ReadsName(p: Parser, left: nat)
    requires p.Valid()
  {
    var q := RowPhase(p);
    q.Some? && RowsReadName(q.value, left)
  }

  // ----------------------------------------- resuming equals not having stopped

  lemma PrefixFacts(u: seq<Byte>, v: seq<Byte>, n: nat)
    requires |u| >= 4 + n
    ensures (u + v)[..3] == u[..3]
    ensures (u + v)[4..4 + n] == u[4..4 + n]
    ensures (u + v)[4 + n..] == u[4 + n..] + v
  {
  }

  lemma {:induction false} ColumnsResume(p: Parser, v: seq<Byte>)
    requires p.Valid()
    ensures ReadColumns(p).outcome == Again ==>
              ReadColumns(p.More(v)) == ReadColumns(ReadColumns(p).parser.More(v))
    ensures ReadColumns(p).outcome == Finished ==>
              ReadColumns(p.More(v)) == Result(Finished, ReadColumns(p).parser.More(v))
    decreases p.numColumn - |p.fields|
  {
    hide DecodeField, Le;
    var u := p.unread;
    if |p.fields| < p.numColumn {
      if |u| >= 4 && |u| - 4 >= Le(u[..3]) {
        var n := Le(u[..3]);
        PrefixFacts(u, v, n);
        var d := DecodeField(u[4..4 + n]);
        if d.FieldOk? {
          ColumnsResume(p.(fields := p.fields + [d.field], unread := u[4 + n..]), v);
        }
      }
    } else if |u| >= EOF_SIZE {
      assert (u + v)[EOF_SIZE..] == u[EOF_SIZE..] + v;
      assert (u + v)[5..7] == u[5..7] && (u + v)[7..9] == u[7..9];
    }
  }

  /** A packet short enough to be mistaken for an EOF packet does not decode as a row. */
  lemma ShortEofIsNoRow(fields: seq<Field>, payload: seq<Byte>)
    requires NamedFields(fields) && fields != []
    requires |payload| == 0 || (|payload| < 9 && payload[0] == 254)
    ensures DecodeRow(fields, payload).RowErr?
  {
    assert payload[0..] == payload;
  }

  lemma {:induction false} RowsGrow(p: Parser)
    requires p.Valid()
    ensures |ReadRows(p).parser.rows| >= |p.rows|
    decreases |p.unread|
  {
    hide DecodeRow, Le;
    var u := p.unread;
    if |u| >= 4 && |u| - 4 >= Le(u[..3]) {
      var d := DecodeRow(p.fields, u[4..4 + Le(u[..3])]);
      if d.RowOk? {
        RowsGrow(p.(rows := p.rows + [d.row], unread := u[4 + Le(u[..3])..]));
      }
    }
  }

  lemma RowsNext(p: Parser, n: nat)
    requires p.Valid() && !(|p.unread| == EOF_SIZE && IsEof(p.unread))
    requires |p.unread| >= 4 + n && n == Le(p.unread[..3])
    ensures match DecodeRow(p.fields, p.unread[4..4 + n])
            case RowErr(_) => ReadRows(p) == Result(Again, p)
            case RowWild => ReadRows(p) == Result(Wild, p)
            case RowOk(row) =>
              ReadRows(p) == ReadRows(p.(rows := p.rows + [row], unread := p.unread[4 + n..]))
  {
    hide DecodeRow, Le;
  }

  /** The names read, one row further. */
  lemma NamesNext(p: Parser, left: nat, n: nat)
    requires p.Valid() && !(|p.unread| == EOF_SIZE && IsEof(p.unread))
    requires |p.unread| >= 4 + n && n == Le(p.unread[..3])
    ensures var payload := p.unread[4..4 + n];
            var d := DecodeRow(p.fields, payload);
            RowsReadName(p, left) <==>
            || CellsReadName(p.fields, left, payload, 0)
            || (d.RowOk? && RowsReadName(p.(rows := p.rows + [d.row], unread := p.unread[4 + n..]), left))
  {
    hide DecodeRow, CellsReadName, Le;
  }

  /** Among the packets of `u` there is one that, nine bytes before the end of `u + v`, looks like
      the EOF packet although it is complete without `v`. */
  predicate Mistaken(u: seq<Byte>, v: seq<Byte>) {
    |u| >= 4 &&
    var n := Le(u[..3]);
    |u| - 4 >= n && ((|u| + |v| == EOF_SIZE && IsEof(u + v)) || Mistaken(u[4 + n..], v))
  }

  lemma NoColumnsNoError(payload: seq<Byte>)
    ensures DecodeRow([], payload) == RowOk(map[])
  {
  }

  /** One packet of the rows, seen with and without what follows. */
  lemma RowStepResume(p: Parser, v: seq<Byte>, n: nat)
    requires p.Valid() && HasRow(p.unread) && n == Le(p.unread[..3])
    requires DecodeRow(p.fields, p.unread[4..4 + n]).RowOk?
    ensures var row := DecodeRow(p.fields, p.unread[4..4 + n]).row;
            var q := p.(rows := p.rows + [row], unread := p.unread[4 + n..]);
            && ReadRows(p) == ReadRows(q)
            && (if |p.unread| + |v| == EOF_SIZE && IsEof(p.unread + v)
                then p.fields == [] && ReadRows(p.More(v)).parser.rows == p.rows
                else ReadRows(p.More(v)) == ReadRows(q.More(v)))
  {
    hide DecodeRow, Le;
    var u := p.unread;
    PrefixFacts(u, v, n);
    assert v == [] ==> u + v == u;
    if v != [] && |u + v| == EOF_SIZE && IsEof(u + v) && p.fields != [] {
      ShortEofIsNoRow(p.fields, u[4..4 + n]);
      assert false;
    }
  }

  /** For any bytes: row reading that asked for more, continued with the rest, ends as one call on
      everything, unless without columns a packet was taken for a row that is the EOF packet. */
  lemma {:induction false} RowsResume(p: Parser, v: seq<Byte>)
    requires p.Valid() && ReadRows(p).outcome == Again
    ensures ReadRows(p.More(v)) == ReadRows(ReadRows(p).parser.More(v)) <==>
            !(p.fields == [] && Mistaken(p.unread, v))
    ensures p.fields == [] && Mistaken(p.unread, v) ==>
              |ReadRows(p.More(v)).parser.rows| < |ReadRows(ReadRows(p).parser.More(v)).parser.rows|
    decreases |p.unread|
  {
    var u := p.unread;
    if HasRow(u) {
      var n := Le(u[..3]);
      NoColumnsNoError(u[4..4 + n]);
      hide DecodeRow, Le;
      var d := DecodeRow(p.fields, u[4..4 + n]);
      if d.RowOk? {
        RowStepResume(p, v, n);
        var q := p.(rows := p.rows + [d.row], unread := u[4 + n..]);
        if |u| + |v| == EOF_SIZE && IsEof(u + v) {
          RowsGrow(q);
          RowsGrow(ReadRows(q).parser.More(v));
          hide ReadRows;
          assert |ReadRows(p.More(v)).parser.rows| < |ReadRows(ReadRows(p).parser.More(v)).parser.rows|;
        } else {
          RowsResume(q, v);
        }
      }
    }
  }

  lemma HeadStable(p: Parser, v: seq<Byte>)
    requires p.Valid()
    requires ReadHead(p).outcome == Finished && ReadHead(p).parser.state == ReadField
    requires p.state == ReadStart
    ensures ReadHead(p.More(v)) == Result(Finished, ReadHead(p).parser.More(v))
  {
    var b := p.unread;
    assert (b + v)[..3] == b[..3];
    assert (b + v)[4..] == b[4..] + v;
    LcbStable(b[4..], v);
    var used := ReadLcb(b[4..]).used;
    assert (b + v)[4 + used..] == b[4 + used..] + v;
  }

  /** Resuming: whatever the bytes, if a call asks for more, then going on with the rest gives what
      one call on everything would have given, if and only if there are columns, or no packet was
      taken for a row that is the EOF packet when seen with the rest. */
  lemma Resume(p: Parser, v: seq<Byte>)
    requires p.Valid() && v != []
    requires Response(p).outcome == Again
    ensures Response(p.More(v)) == Response(Response(p).parser.More(v)) <==>
            !(RowPhase(p).Some? && RowPhase(p).value.numColumn == 0 && Mistaken(RowPhase(p).value.unread, v))
  {
    hide ReadHead, ReadColumns, ReadRows, Mistaken;
    assert p.unread != [];
    if p.state == ReadStart {
      assert p.More(v).state == ReadStart;
      var h := ReadHead(p);
      if h.outcome == Finished {
        HeadStable(p, v);
        ColumnsThenRowsResume(h.parser, v);
      } else {
        HeadAgain(p);
      }
    } else if p.state == ReadField {
      ColumnsThenRowsResume(p, v);
    } else if p.state == ReadRow {
      RowsAgain(p);
      RowsResume(p, v);
    }
  }

  /** With columns, a call that asked for more can always be resumed. */
  lemma ResumeWithColumns(p: Parser, v: seq<Byte>)
    requires p.Valid() && v != [] && Response(p).outcome == Again
    requires Response(p).parser.state == ReadRow ==> Response(p).parser.numColumn > 0
    ensures Response(p.More(v)) == Response(Response(p).parser.More(v))
  {
    hide ReadHead, ReadColumns, ReadRows, Mistaken;
    Resume(p, v);
    if RowPhase(p).Some? { RowsAgain(RowPhase(p).value); }
  }

  lemma HeadAgain(p: Parser)
    requires p.Valid()
    ensures ReadHead(p).outcome == Again ==> ReadHead(p).parser == p
    ensures ReadHead(p).outcome == Finished ==> ReadHead(p).parser.state in {ReadEnd, ReadField}
  {
  }

  lemma {:induction false} RowsAgain(p: Parser)
    requires p.Valid()
    ensures ReadRows(p).parser.state == p.state
    decreases |p.unread|
  {
    hide DecodeRow, Le;
    var u := p.unread;
    if |u| >= 4 && |u| - 4 >= Le(u[..3]) {
      var d := DecodeRow(p.fields, u[4..4 + Le(u[..3])]);
      if d.RowOk? {
        RowsAgain(p.(rows := p.rows + [d.row], unread := u[4 + Le(u[..3])..]));
      }
    }
  }

  lemma {:induction false} ColumnsAgain(p: Parser)
    requires p.Valid()
    ensures ReadColumns(p).parser.state == p.state
    decreases p.numColumn - |p.fields|
  {
    hide DecodeField, Le;
    var u := p.unread;
    if |p.fields| < p.numColumn && |u| >= 4 && |u| - 4 >= Le(u[..3]) {
      var d := DecodeField(u[4..4 + Le(u[..3])]);
      if d.FieldOk? {
        ColumnsAgain(p.(fields := p.fields + [d.field], unread := u[4 + Le(u[..3])..]));
      }
    }
  }

  lemma ColumnsThenRowsResume(p: Parser, v: seq<Byte>)
    requires p.Valid() && v != [] && p.state == ReadField
    requires ResponseColumns(p).outcome == Again
    ensures ResponseColumns(p.More(v)) == Response(ResponseColumns(p).parser.More(v)) <==>
            !(AfterColumns(p).Some? && AfterColumns(p).value.numColumn == 0
              && Mistaken(AfterColumns(p).value.unread, v))
  {
    hide ReadColumns, ReadRows, Mistaken;
    ColumnsAgain(p);
    ColumnsResume(p, v);
    var r := ReadColumns(p);
    if r.outcome == Finished {
      var q := r.parser.(state := ReadRow);
      RowsAgain(q);
      RowsResume(q, v);
      assert r.parser.More(v).(state := ReadRow) == q.More(v);
    }
  }

  /** A parser that waits at a packet it cannot read yet waits again. */
  lemma {:induction false} RowsRepeat(p: Parser)
    requires p.Valid() && ReadRows(p).outcome == Again
    ensures var q := ReadRows(p).parser; ReadRows(q) == Result(Again, q)
    decreases |p.unread|
  {
    hide DecodeRow, Le;
    var u := p.unread;
    if HasRow(u) {
      var d := DecodeRow(p.fields, u[4..4 + Le(u[..3])]);
      if d.RowOk? {
        RowsRepeat(p.(rows := p.rows + [d.row], unread := u[4 + Le(u[..3])..]));
      }
    }
  }

  lemma ColumnsRepeat(p: Parser)
    requires p.Valid() && ReadColumns(p).outcome == Again
    ensures var q := ReadColumns(p).parser; ReadColumns(q).outcome == Again && ReadColumns(q).parser == q
  {
    hide ReadColumns;
    ColumnsResume(p, []);
    NothingMore(p);
    NothingMore(ReadColumns(p).parser);
  }

  lemma NothingMore(p: Parser)
    ensures p.More([]) == p
  {
    assert p.unread + [] == p.unread;
  }

  /** A call that asked for more, made again without more: if bytes are unread it asks again, and
      nothing has changed; otherwise it reports success. */
  lemma RepeatedCall(p: Parser)
    requires p.Valid() && Response(p).outcome == Again
    ensures var q := Response(p).parser;
            Response(q) == Result(if q.unread == [] then Finished else Again, q)
  {
    hide ReadHead, ReadColumns, ReadRows;
    HeadAgain(p);
    var r := RowPhase(p);
    if r.Some? {
      RowsAgain(r.value);
      RowsRepeat(r.value);
    }
    if p.state == ReadField && r.None? { ColumnsAgain(p); ColumnsRepeat(p); }
    if p.state == ReadStart && r.None? && ReadHead(p).outcome == Finished {
      ColumnsAgain(ReadHead(p).parser);
      ColumnsRepeat(ReadHead(p).parser);
    }
  }

  /** The way to the rows, resumed in the columns or before them. */
  lemma PhaseResume(p: Parser, v: seq<Byte>)
    requires p.Valid() && Response(p).outcome == Again && RowPhase(p).None?
    ensures RowPhase(Response(p).parser.More(v)) == RowPhase(p.More(v))
  {
    hide ReadHead, ReadColumns, ReadRows;
    HeadAgain(p);
    NothingMore(p);
    if p.state == ReadField {
      ColumnsAgain(p);
      ColumnsResume(p, v);
    } else if p.state == ReadStart && ReadHead(p).outcome == Finished {
      var h := ReadHead(p).parser;
      HeadStable(p, v);
      ColumnsAgain(h);
      ColumnsResume(h, v);
    }
  }
}
