/**
  * What a caller of the MySQL client sees, stated from what the server sent alone: under which keys
  * the cells of a row are found, and what the replies hold.
  */
module MysqlResult {
  import opened Options
  import opened Bytes
  import opened MysqlWire
  import opened MysqlField
  import opened MysqlRow
  import opened MysqlParser
  import opened MysqlChunks
  import F = MysqlFeed

  // ------------------------------------------------------------------- the keys of a row

  /** `key` is `name` up to its first NUL. */
  ghost predicate CutAtNul(name: seq<Byte>, key: seq<Byte>) {
    key <= name && 0 !in key && (|key| < |name| ==> name[|key|] == 0)
  }

  ghost predicate KeysOf(columns: seq<ColumnDef>, keys: seq<seq<Byte>>) {
    |keys| == |columns| && forall k :: 0 <= k < |columns| ==> CutAtNul(columns[k].name, keys[k])
  }

  /** A cell is entered into its row if it is NULL or its type is one of these: DECIMAL, TINY, SHORT,
      LONG, FLOAT, DOUBLE, NULL, TIMESTAMP, LONGLONG, INT24, DATE, TIME, DATETIME, YEAR, NEWDATE,
      VARCHAR, BIT; NEWDECIMAL; TINY, MEDIUM, LONG and plain BLOB, VAR_STRING, STRING. */
  predicate Entered(c: ColumnDef, cell: Cell) {
    || cell.Null?
    || c.ctype in {0, 1, 2, 3, 4, 5, 6, 7, 8, 9, 10, 11, 12, 13, 14, 15, 16}
    || c.ctype in {246, 249, 250, 251, 252, 253, 254}
  }

  /** The value it is entered with; a column of type NULL has no other. */
  function Value(c: ColumnDef, cell: Cell): Cell {
    if c.ctype == 6 then Null else cell
  }

  /** No later column of the same key is entered. */
  ghost predicate LastOfKey(columns: seq<ColumnDef>, keys: seq<seq<Byte>>, cells: seq<Cell>, k: nat)
    requires |columns| == |keys| == |cells|
  {
    forall j :: k < j < |columns| && Entered(columns[j], cells[j]) ==> keys[j] != keys[k]
  }

  /** The row has every cell that is entered under its column's key, unless a later column of that key
      comes over it, and no other key. */
  ghost predicate Shows(row: Row, columns: seq<ColumnDef>, keys: seq<seq<Byte>>, cells: seq<Cell>)
    requires |columns| == |keys| == |cells|
  {
    && (forall k :: 0 <= k < |columns| && Entered(columns[k], cells[k]) && LastOfKey(columns, keys, cells, k) ==>
          keys[k] in row && row[keys[k]] == Value(columns[k], cells[k]))
    && (forall key <- row :: exists k :: 0 <= k < |columns| && Entered(columns[k], cells[k]) && keys[k] == key)
  }

  lemma {:induction false} CNameCuts(s: seq<Byte>, key: seq<Byte>)
    requires CutAtNul(s, key)
    ensures CName(s) == key
    decreases |s|
  {
    if s != [] && s[0] != 0 {
      assert key != [] && key[0] == s[0];
      assert key[1..] <= s[1..] && CutAtNul(s[1..], key[1..]);
      CNameCuts(s[1..], key[1..]);
      assert key == [s[0]] + key[1..];
    }
  }

  lemma CellPut(row: Row, c: ColumnDef, cell: Cell, key: seq<Byte>)
    requires CutAtNul(c.name, key)
    ensures PutCell(row, Decoded(c), cell) == if Entered(c, cell) then row[key := Value(c, cell)] else row
  {
    CNameCuts(c.name, key);
    assert Decoded(c).strings == c.Strings() && c.Strings()[4] == c.name;
  }

  /** The cells entered into a row, from column `k` on. */
  lemma {:induction false} RowFrom(
    columns: seq<ColumnDef>, keys: seq<seq<Byte>>, cells: seq<Cell>, k: nat, fields: seq<Field>, row: Row)
    requires KeysOf(columns, keys) && |cells| == |columns| && k <= |columns|
    requires fields == DecodedAll(columns) && NamedFields(fields)
    ensures var r := RowOf(fields[k..], cells[k..], row);
            && (forall j :: k <= j < |columns| && Entered(columns[j], cells[j])
                            && LastOfKey(columns, keys, cells, j) ==>
                  keys[j] in r && r[keys[j]] == Value(columns[j], cells[j]))
            && (forall key <- r ::
                  key in row || exists j :: k <= j < |columns| && Entered(columns[j], cells[j]) && keys[j] == key)
            && (forall key <- row ::
                  (forall j :: k <= j < |columns| && Entered(columns[j], cells[j]) ==> keys[j] != key) ==>
                    key in r && r[key] == row[key])
    decreases |columns| - k
  {
    hide PutCell, Entered, Value, CutAtNul, Decoded;
    if k < |columns| {
      var next := PutCell(row, fields[k], cells[k]);
      CellPut(row, columns[k], cells[k], keys[k]);
      RowFrom(columns, keys, cells, k + 1, fields, next);
      assert fields[k..][1..] == fields[k + 1..] && cells[k..][1..] == cells[k + 1..];
    }
  }

  /** Every row of a well-formed result set, as the client ends up with it. */
  lemma RowsShown(r: ResultSet, keys: seq<seq<Byte>>, i: nat)
    requires r.Valid() && KeysOf(r.columns, keys) && i < |r.rows|
    ensures |Final(r).rows| == |r.rows| && |r.rows[i]| == |r.columns|
    ensures Shows(Final(r).rows[i], r.columns, keys, r.rows[i])
  {
    hide RowOf, Entered, Value, CutAtNul, Packet, EofPayload, EncodeField, WriteCells;
    var fields, cells := DecodedAll(r.columns), r.rows[i];
    DecodedAllNamed(r.columns);
    assert ValidRow(cells, |r.columns|);
    RowFrom(r.columns, keys, cells, 0, fields, map[]);
    assert fields[0..] == fields && cells[0..] == cells;
  }

  /** A well-formed response through the client, in any deliveries that do no harm: every row it ends up
      with shows the cells that were sent. */
  lemma ClientShows(r: ResultSet, keys: seq<seq<Byte>>, size: nat, es: seq<F.Event>, i: nat)
    requires r.Valid() && KeysOf(r.columns, keys) && i < |r.rows|
    requires F.Feasible(0, size, es) && F.AllData(es) == Encode(r) && F.Remainder(0, size, [], es) == []
    requires forall m <- F.Marks(0, size, 0, [], es) :: F.GoodStop(r, m) && F.GoodMove(r, m)
    ensures var rows := F.Feed(F.Start(size), es).p.rows;
            |rows| == |r.rows| && |r.rows[i]| == |r.columns| && Shows(rows[i], r.columns, keys, r.rows[i])
  {
    hide ResultSet.Valid, Encode, Final, Shows, F.Feed, F.Marks, F.Feasible, F.Remainder, F.AllData, F.GoodStop,
      F.GoodMove;
    F.ClientYields(r, size, es);
    RowsShown(r, keys, i);
  }

  // ----------------------------------------------------------------------- the replies

  /** The packets of section 14.1.3 of the MySQL Client/Server Protocol, for the protocol version
      the client speaks. */
  function ReplyBytes(reply: Reply): seq<Byte> {
    match reply
    case NoReply => []
    case OkReply(affected, insertId, status, warnings) =>
      [0] + WriteLcb(affected) + WriteLcb(insertId) + LeBytes(status, 2) + LeBytes(warnings, 2)
    case ErrReply(code, sqlState, message) => [255] + LeBytes(code, 2) + ['#' as nat] + sqlState + message
    case EofReply(warnings, status) => [254] + LeBytes(warnings, 2) + LeBytes(status, 2)
  }

  predicate GoodReply(reply: Reply) {
    match reply
    case NoReply => false
    case OkReply(affected, insertId, status, warnings) =>
      affected < TWO64 && insertId < TWO64 && status < TWO16 && warnings < TWO16
    case ErrReply(code, sqlState, _) => code < TWO16 && |sqlState| == 5
    case EofReply(warnings, status) => warnings < TWO16 && status < TWO16
  }

  lemma TwoBytes(n: nat)
    requires n < TWO16
    ensures |LeBytes(n, 2)| == 2 && Le(LeBytes(n, 2)) == n
  {
    PowersOf256();
    LeOfLeBytes(n, 2);
  }

  lemma Behind<T>(a: seq<T>, b: seq<T>, c: seq<T>)
    ensures (a + (b + c))[|a|..] == b + c && (a + (b + c))[|a| + |b|..] == c
  {
  }

  lemma TwoFields(b: seq<Byte>, j: nat, u: seq<Byte>, v: seq<Byte>, rest: seq<Byte>)
    requires j <= |b| && b[j..] == u + (v + rest) && |u| == |v| == 2
    ensures |b| >= j + 4 && b[j..j + 2] == u && b[j + 2..j + 4] == v
  {
    assert b[j..j + 2] == b[j..][..2] && b[j + 2..j + 4] == b[j..][2..4];
  }

  /** Two integers and two 16-bit numbers, with anything behind them. */
  lemma OkFields(b: seq<Byte>, head: seq<Byte>, x: seq<Byte>, y: seq<Byte>, u: seq<Byte>, v: seq<Byte>, info: seq<Byte>,
                 affected: nat, insertId: nat)
    requires |head| == 5 && affected < TWO64 && insertId < TWO64 && |u| == |v| == 2
    requires x == WriteLcb(affected) && y == WriteLcb(insertId) && b == head + (x + (y + (u + (v + info))))
    ensures ReadLcb(b[5..]) == Lcb(affected, false, |x|) && ReadLcb(b[5 + |x|..]) == Lcb(insertId, false, |y|)
    ensures var j := 5 + |x| + |y|; |b| >= j + 4 && b[j..j + 2] == u && b[j + 2..j + 4] == v
  {
    hide ReadLcb, WriteLcb;
    var t2 := u + (v + info);
    var t1 := y + t2;
    assert t2 != [] && t1 != [];
    Behind(head, x, t1);
    Assoc(head, x, t1);
    Behind(head + x, y, t2);
    LcbRoundTrip(affected, t1);
    LcbRoundTrip(insertId, t2);
    TwoFields(b, 5 + |x| + |y|, u, v, info);
  }

  lemma OkRead(p: Parser, x: seq<Byte>, y: seq<Byte>, affected: nat, insertId: nat, status: nat, warnings: nat)
    requires |p.unread| >= 5
    requires var b, j := p.unread, 5 + |x| + |y|;
             && |b| >= j + 4 && ReadLcb(b[5..]) == Lcb(affected, false, |x|)
             && ReadLcb(b[5 + |x|..]) == Lcb(insertId, false, |y|)
             && Le(b[j..j + 2]) == status && Le(b[j + 2..j + 4]) == warnings
    ensures ReadOk(p) == Result(Finished, p.(state := ReadEnd, reply := OkReply(affected, insertId, status, warnings)))
  {
    hide ReadLcb, Le;
  }

  /** What the beginning of a packet is, seen in the whole of it. */
  lemma PacketBegins(i: nat, payload: seq<Byte>)
    requires 0 < |payload| < TWO24
    ensures var b := Packet(i, payload);
            && |b| == 4 + |payload| && Le(b[..3]) == |payload| && b[4] == payload[0]
            && b[4..] == payload && b == b[..4] + payload
  {
    hide Le, LeBytes;
    PowersOf256();
    LeOfLeBytes(|payload|, 3);
    var b := Packet(i, payload);
    assert b[..3] == LeBytes(|payload|, 3);
  }

  /** One call on a reply. */
  lemma OkCall(i: nat, reply: Reply, info: seq<Byte>)
    requires reply.OkReply? && GoodReply(reply) && |ReplyBytes(reply) + info| < TWO24
    ensures var p := Initial().More(Packet(i, ReplyBytes(reply) + info));
            Response(p) == Result(Finished, p.(state := ReadEnd, reply := reply))
  {
    hide Le, LeBytes, Packet, ReadOk, WriteLcb, ReadLcb;
    var payload := ReplyBytes(reply) + info;
    var p := Initial().More(Packet(i, payload));
    PacketBegins(i, payload);
    var x, y := WriteLcb(reply.affected), WriteLcb(reply.insertId);
    var u, v := LeBytes(reply.status, 2), LeBytes(reply.warnings, 2);
    TwoBytes(reply.status);
    TwoBytes(reply.warnings);
    assert p.unread == Packet(i, payload);
    OkBytes(p.unread, payload, x, y, u, v, info);
    OkFields(p.unread, p.unread[..5], x, y, u, v, info, reply.affected, reply.insertId);
    OkRead(p, x, y, reply.affected, reply.insertId, reply.status, reply.warnings);
  }

  lemma OkBytes(
    b: seq<Byte>, payload: seq<Byte>, x: seq<Byte>, y: seq<Byte>, u: seq<Byte>, v: seq<Byte>, info: seq<Byte>)
    requires |b| == 4 + |payload| && b[4..] == payload && payload == [0] + x + y + u + v + info
    ensures b == b[..5] + (x + (y + (u + (v + info))))
  {
    assert b[5..] == payload[1..];
    assert payload[1..] == x + (y + (u + (v + info)));
  }

  lemma ErrCall(i: nat, reply: Reply)
    requires reply.ErrReply? && GoodReply(reply) && |ReplyBytes(reply)| < TWO24
    ensures var p := Initial().More(Packet(i, ReplyBytes(reply)));
            Response(p) == Result(Finished, p.(state := ReadEnd, reply := reply))
  {
    hide Le, LeBytes, Packet, ReadOk, ReadLcb;
    var payload := ReplyBytes(reply);
    TwoBytes(reply.code);
    PacketBegins(i, payload);
    var b := Initial().More(Packet(i, payload)).unread;
    assert b == Packet(i, payload);
    FourParts(payload, [255], LeBytes(reply.code, 2), ['#' as nat], reply.sqlState, reply.message);
    assert b[5..7] == b[4..][1..3] && b[8..13] == b[4..][4..9] && b[13..] == b[4..][9..];
  }

  lemma FourParts(p: seq<Byte>, a: seq<Byte>, b: seq<Byte>, c: seq<Byte>, d: seq<Byte>, e: seq<Byte>)
    requires p == a + b + c + d + e
    ensures p[|a|..|a| + |b|] == b && p[|a + b + c|..|a + b + c + d|] == d && p[|a + b + c + d|..] == e
  {
  }

  lemma EofCall(i: nat, reply: Reply)
    requires reply.EofReply? && GoodReply(reply)
    ensures var p := Initial().More(Packet(i, ReplyBytes(reply)));
            Response(p) == Result(Finished, p.(state := ReadEnd, reply := reply))
  {
    hide Le, LeBytes, Packet, ReadOk, ReadLcb;
    var payload := ReplyBytes(reply);
    TwoBytes(reply.warnings);
    TwoBytes(reply.status);
    PacketBegins(i, payload);
    var b := Initial().More(Packet(i, payload)).unread;
    assert b == Packet(i, payload);
    assert payload[1..3] == LeBytes(reply.warnings, 2) && payload[3..5] == LeBytes(reply.status, 2);
    assert b[5..7] == b[4..][1..3] && b[7..9] == b[4..][3..5];
  }

  lemma ReplyRead(i: nat, reply: Reply, info: seq<Byte>)
    requires GoodReply(reply) && (info != [] ==> reply.OkReply?) && |ReplyBytes(reply) + info| < TWO24
    ensures var p := Initial().More(Packet(i, ReplyBytes(reply) + info));
            Response(p) == Result(Finished, p.(state := ReadEnd, reply := reply))
  {
    hide ReplyBytes, Packet, Response;
    assert info == [] ==> ReplyBytes(reply) + info == ReplyBytes(reply);
    if reply.OkReply? {
      OkCall(i, reply, info);
    } else if reply.ErrReply? {
      ErrCall(i, reply);
    } else {
      EofCall(i, reply);
    }
  }

  /** A reply in any deliveries: the client ends with exactly what was sent. */
  lemma ReplyShown(i: nat, reply: Reply, info: seq<Byte>, chunks: seq<seq<Byte>>)
    requires GoodReply(reply) && (info != [] ==> reply.OkReply?) && |ReplyBytes(reply) + info| < TWO24
    requires chunks != [] && NonEmptyChunks(chunks) && Flatten(chunks) == Packet(i, ReplyBytes(reply) + info)
    ensures var p := Initial().More(Packet(i, ReplyBytes(reply) + info));
            Run(Initial(), chunks) == Result(Finished, p.(state := ReadEnd, reply := reply))
  {
    assert ReplyBytes(reply) + info != [] && (ReplyBytes(reply) + info)[0] in {0, 254, 255};
    hide ReplyBytes, Packet, Response;
    ReplyRead(i, reply, info);
    ReplyChunkIndependence(i, ReplyBytes(reply) + info, chunks);
  }
}
