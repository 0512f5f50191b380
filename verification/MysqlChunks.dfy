/**
  * How a response reaches the parser: a byte stream cut anywhere. The result does
  * not depend on the cuts, except on those that end inside or right before the
  * header of a column packet.
  */
module MysqlChunks {
  import opened Options
  import opened Bytes
  import opened MysqlWire
  import opened MysqlField
  import opened MysqlRow
  import opened MysqlParser

  // ------------------------------------------------------------------ any stream

  ghost predicate NonEmptyChunks(chunks: seq<seq<Byte>>) {
    forall k :: 0 <= k < |chunks| ==> chunks[k] != []
  }

  /** The feed loop: one call per delivery, until a call does not ask for more. */
  function Run(p: Parser, chunks: seq<seq<Byte>>): Result
    requires p.Valid()
    decreases |chunks|
  {
    if chunks == [] then Result(Again, p)
    else
      var r := Response(p.More(chunks[0]));
      if r.outcome == Again && |chunks| > 1 then Run(r.parser, chunks[1..]) else r
  }

  ghost predicate Waits(p: Parser, u: seq<Byte>)
    requires p.Valid()
  {
    var r := Response(p.More(u));
    r.outcome == Again && (r.parser.state == ReadRow ==> r.parser.numColumn > 0)
  }

  /** The stream stops in `k` deliveries at a place where the parser waits. */
  ghost predicate WaitsAtCuts(p: Parser, chunks: seq<seq<Byte>>)
    requires p.Valid()
  {
    forall k :: 0 < k < |chunks| ==> Waits(p, Flatten(chunks[..k]))
  }

  lemma {:induction false} FlattenHead(chunks: seq<seq<Byte>>, k: nat)
    requires 0 < k <= |chunks|
    ensures Flatten(chunks[..k]) == chunks[0] + Flatten(chunks[1..][..k - 1])
  {
    assert chunks[..k][1..] == chunks[1..][..k - 1];
  }

  /** For every byte stream and every way to cut it: if the parser waits at each cut,
      feeding it piece by piece ends as one call on the whole stream. */
  lemma {:induction false} RunIsOneCall(p: Parser, chunks: seq<seq<Byte>>)
    requires p.Valid() && chunks != []
    requires NonEmptyChunks(chunks)
    requires WaitsAtCuts(p, chunks)
    ensures Run(p, chunks) == Response(p.More(Flatten(chunks)))
    decreases |chunks|
  {
    hide Response;
    if |chunks| == 1 {
      assert Flatten(chunks) == chunks[0] + Flatten([]);
      assert Flatten(chunks) == chunks[0];
    } else {
      var first, rest := chunks[0], chunks[1..];
      assert Flatten(chunks[..1]) == first by { FlattenHead(chunks, 1); }
      assert Waits(p, Flatten(chunks[..1]));
      var q := Response(p.More(first)).parser;
      forall k | 0 < k <= |rest|
        ensures Response(q.More(Flatten(rest[..k]))) == Response(p.More(Flatten(chunks[..k + 1])))
      {
        FlattenHead(chunks, k + 1);
        FlattenNonEmpty(rest, k);
        ResumeWithColumns(p.More(first), Flatten(rest[..k]));
        assert p.More(first).More(Flatten(rest[..k])) == p.More(Flatten(chunks[..k + 1]));
      }
      forall k | 0 < k < |rest| ensures Waits(q, Flatten(rest[..k])) {
        assert Waits(p, Flatten(chunks[..k + 1]));
      }
      RunIsOneCall(q, rest);
      assert rest[..|rest|] == rest && chunks[..|chunks|] == chunks;
    }
  }

  lemma FlattenNonEmpty(chunks: seq<seq<Byte>>, k: nat)
    requires 0 < k <= |chunks| && chunks[0] != []
    ensures Flatten(chunks[..k]) != []
  {
    FlattenHead(chunks, k);
  }

  // ------------------------------------------------------- well-formed responses

  datatype EofPacket = EofPacket(warnings: nat, status: nat)

  datatype ResultSet = ResultSet(columns: seq<ColumnDef>, rows: seq<seq<Cell>>, eof1: EofPacket, eof2: EofPacket)
  {
    ghost predicate Valid() {
      && 0 < |columns| < TWO16
      && ValidColumns(columns)
      && ValidRows(rows, |columns|)
      && ValidEof(eof1) && ValidEof(eof2)
    }
  }

  ghost predicate ValidColumn(c: ColumnDef) {
    c.Valid() && |EncodeField(c)| < TWO24
  }

  ghost predicate ValidRow(cells: seq<Cell>, n: nat) {
    |cells| == n && |WriteCells(cells)| < TWO24
  }

  ghost predicate ValidColumns(cs: seq<ColumnDef>) {
    forall k :: 0 <= k < |cs| ==> ValidColumn(cs[k])
  }

  ghost predicate ValidRows(rows: seq<seq<Cell>>, n: nat) {
    forall k :: 0 <= k < |rows| ==> ValidRow(rows[k], n)
  }

  ghost predicate ValidEof(e: EofPacket) {
    e.warnings < TWO16 && e.status < TWO16
  }

  /** A packet: payload length, sequence number, payload. */
  function Packet(i: nat, payload: seq<Byte>): seq<Byte> {
    LeBytes(|payload|, 3) + [i % 256] + payload
  }

  function EofPayload(e: EofPacket): seq<Byte> {
    [254] + LeBytes(e.warnings, 2) + LeBytes(e.status, 2)
  }

  ghost function ColumnPackets(cs: seq<ColumnDef>, i: nat): seq<Byte>
    requires ValidColumns(cs)
  {
    if cs == [] then [] else Packet(i, EncodeField(cs[0])) + ColumnPackets(cs[1..], i + 1)
  }

  ghost function RowPackets(rows: seq<seq<Cell>>, i: nat): seq<Byte> {
    if rows == [] then [] else Packet(i, WriteCells(rows[0])) + RowPackets(rows[1..], i + 1)
  }

  ghost function Encode(r: ResultSet): seq<Byte>
    requires r.Valid()
  {
    var n := |r.columns|;
    Packet(1, WriteLcb(n))
    + (ColumnPackets(r.columns, 2) + Packet(2 + n, EofPayload(r.eof1)))
    + (RowPackets(r.rows, 3 + n) + Packet(3 + n + |r.rows|, EofPayload(r.eof2)))
  }

  function DecodedAll(cs: seq<ColumnDef>): (fs: seq<Field>)
    ensures |fs| == |cs|
  {
    seq(|cs|, k requires 0 <= k < |cs| => Decoded(cs[k]))
  }

  lemma DecodedAllNamed(cs: seq<ColumnDef>)
    requires ValidColumns(cs)
    ensures NamedFields(DecodedAll(cs))
  {
    var fs := DecodedAll(cs);
    forall f | f in fs ensures |f.strings| == STRINGS {
      var k :| 0 <= k < |fs| && fs[k] == f;
      assert ValidColumn(cs[k]);
    }
  }

  ghost function RowsOf(fields: seq<Field>, rows: seq<seq<Cell>>): (rs: seq<Row>)
    requires NamedFields(fields)
    requires ValidRows(rows, |fields|)
    ensures |rs| == |rows|
  {
    seq(|rows|, k requires 0 <= k < |rows| => RowOf(fields, rows[k], map[]))
  }

  /** The parser after the whole response; the bytes of the last EOF packet stay unread. */
  ghost function Final(r: ResultSet): Parser
    requires r.Valid()
  {
    DecodedAllNamed(r.columns);
    Parser(ReadEnd, Packet(3 + |r.columns| + |r.rows|, EofPayload(r.eof2)),
           |r.columns|, DecodedAll(r.columns), RowsOf(DecodedAll(r.columns), r.rows),
           r.eof2.warnings, r.eof2.status, NoReply)
  }

  // ---------------------------------------------------------- prefixes of a packet

  /** What the header at `a` says, seen through the window `w[a..c]`. */
  lemma PacketSeen(w: seq<Byte>, a: nat, c: nat, i: nat, payload: seq<Byte>)
    requires At(w, a, Packet(i, payload)) && |payload| < TWO24
    requires a + 4 <= c <= |w|
    ensures |Packet(i, payload)| == 4 + |payload|
    ensures Le(w[a..c][..3]) == |payload|
    ensures a + 4 + |payload| <= c ==>
              && w[a..c][4..4 + |payload|] == payload
              && w[a..c][4 + |payload|..] == w[a + 4 + |payload|..c]
    ensures a + 4 < c && payload != [] ==> w[a..c][4] == payload[0]
  {
    PowersOf256();
    LeOfLeBytes(|payload|, 3);
    var pk := Packet(i, payload);
    assert w[a..c][..3] == pk[..3] == LeBytes(|payload|, 3) by { AtSlice(w, a, pk, 0, 3); }
    assert pk[4..4 + |payload|] == payload;
    if a + 4 < c && payload != [] {
      AtSlice(w, a, pk, 4, 5);
      assert w[a + 4..a + 5][0] == w[a + 4] && pk[4..5][0] == payload[0];
    }
    if a + 4 + |payload| <= c {
      AtWindow(w, a, c, pk);
      AtSlice(w[a..c], 0, pk, 4, 4 + |payload|);
    }
  }

  lemma AtSlice(w: seq<Byte>, a: nat, s: seq<Byte>, x: nat, y: nat)
    requires At(w, a, s) && x <= y <= |s|
    ensures a + y <= |w| && w[a + x..a + y] == s[x..y]
  {
    forall k | 0 <= k < y - x ensures w[a + x..a + y][k] == s[x..y][k] {
      assert w[a..a + |s|][x + k] == w[a + x + k];
    }
  }

  lemma AtWindow(w: seq<Byte>, a: nat, c: nat, s: seq<Byte>)
    requires At(w, a, s) && a + |s| <= c <= |w|
    ensures At(w[a..c], 0, s)
  {
    assert w[a..c][0..|s|] == w[a..a + |s|];
  }

  lemma EofSeen(w: seq<Byte>, a: nat, i: nat, e: EofPacket)
    requires ValidEof(e) && At(w, a, Packet(i, EofPayload(e)))
    ensures |Packet(i, EofPayload(e))| == EOF_SIZE
    ensures a + EOF_SIZE <= |w|
    ensures forall c :: a + EOF_SIZE <= c <= |w| ==>
              var u := w[a..c];
              IsEof(u) && Le(u[5..7]) == e.warnings && Le(u[7..9]) == e.status
  {
    PowersOf256();
    var pk := Packet(i, EofPayload(e));
    LeOfLeBytes(e.warnings, 2);
    LeOfLeBytes(e.status, 2);
    assert pk[4] == 254 && pk[5..7] == LeBytes(e.warnings, 2) && pk[7..9] == LeBytes(e.status, 2);
    AtTail(w, a, pk);
    hide At, Packet, EofPayload, Le, LeBytes, Pow256;
    forall c | a + EOF_SIZE <= c <= |w|
      ensures var u := w[a..c]; IsEof(u) && Le(u[5..7]) == e.warnings && Le(u[7..9]) == e.status
    {
      AtWindow(w, a, c, pk);
      AtSlice(w[a..c], 0, pk, 5, 7);
      AtSlice(w[a..c], 0, pk, 7, 9);
      AtSlice(w[a..c], 0, pk, 4, 5);
      assert w[a..c][4] == w[a..c][4..5][0];
    }
  }

  // ------------------------------------------------------ prefixes of the columns

  /** A cut at `c` leaves fewer than the four header bytes of a packet of `cs`, the first
      of which starts at `a`. */
  ghost predicate CutsHeader(cs: seq<ColumnDef>, a: nat, c: nat)
    requires ValidColumns(cs)
  {
    cs != [] && (a <= c < a + 4 || CutsHeader(cs[1..], a + 4 + |EncodeField(cs[0])|, c))
  }

  /** How many packets are complete, and where the last of them ends. */
  datatype Reach = Reach(count: nat, at: nat)

  /** The packets of `cs`, the first of which starts at `a`, within the first `c` bytes. */
  ghost function ColumnsReach(cs: seq<ColumnDef>, a: nat, c: nat): (d: Reach)
    requires ValidColumns(cs)
    ensures d.count <= |cs| && a <= d.at && (a <= c ==> d.at <= c)
  {
    if cs == [] || c < a + 4 + |EncodeField(cs[0])| then Reach(0, a)
    else var d := ColumnsReach(cs[1..], a + 4 + |EncodeField(cs[0])|, c); d.(count := d.count + 1)
  }

  /** One column packet at `a`, seen up to `c`. */
  lemma ColumnStep(p: Parser, w: seq<Byte>, a: nat, c: nat, d: ColumnDef, i: nat)
    requires p.Valid() && |p.fields| < p.numColumn
    requires ValidColumn(d) && At(w, a, Packet(i, EncodeField(d)))
    requires a <= c <= |w| && p.unread == w[a..c]
    ensures var next := a + 4 + |EncodeField(d)|;
            && |Packet(i, EncodeField(d))| == 4 + |EncodeField(d)|
            && (c < a + 4 ==> ReadColumns(p) == Result(OverRead, p))
            && (a + 4 <= c < next ==> ReadColumns(p) == Result(Again, p))
            && (next <= c ==>
                 ReadColumns(p) == ReadColumns(p.(fields := p.fields + [Decoded(d)], unread := w[next..c])))
  {
    hide DecodeField, Le, EncodeField, At, Packet, Decoded;
    PacketLength(i, EncodeField(d));
    if a + 4 <= c {
      PacketSeen(w, a, c, i, EncodeField(d));
      FieldRoundTrip(d);
    }
  }

  lemma ColumnsEnd(p: Parser, w: seq<Byte>, a: nat, c: nat, j: nat, e: EofPacket)
    requires p.Valid() && p.numColumn == |p.fields|
    requires ValidEof(e) && At(w, a, Packet(j, EofPayload(e)))
    requires a <= c <= |w| && p.unread == w[a..c]
    ensures a + EOF_SIZE <= |w|
    ensures c < a + EOF_SIZE ==> ReadColumns(p) == Result(Again, p)
    ensures c >= a + EOF_SIZE ==>
              ReadColumns(p) == Result(Finished,
                p.(unread := w[a + EOF_SIZE..c], warnings := e.warnings, status := e.status))
  {
    hide Le, At, Packet, EofPayload;
    EofSeen(w, a, j, e);
    if c >= a + EOF_SIZE {
      assert p.unread[EOF_SIZE..] == w[a + EOF_SIZE..c];
    }
  }

  /** The columns and their EOF packet from `a` to `b`, seen up to `c`. */
  lemma {:induction false} ColumnsSeen(
    p: Parser, w: seq<Byte>, a: nat, c: nat, cs: seq<ColumnDef>, i: nat, j: nat, e: EofPacket)
    requires p.Valid() && p.numColumn == |p.fields| + |cs|
    requires ValidColumns(cs)
    requires ValidEof(e) && At(w, a, ColumnPackets(cs, i) + Packet(j, EofPayload(e)))
    requires a <= c <= |w| && p.unread == w[a..c]
    ensures var b := a + |ColumnPackets(cs, i)| + EOF_SIZE;
            && b <= |w|
            && (c >= b ==>
                  && !CutsHeader(cs, a, c)
                  && ReadColumns(p) == Result(Finished,
                       p.(fields := p.fields + DecodedAll(cs), unread := w[b..c],
                          warnings := e.warnings, status := e.status)))
            && (c < b ==> ReadColumns(p).outcome == if CutsHeader(cs, a, c) then OverRead else Again)
            && (c < b ==>
                 var d := ColumnsReach(cs, a, c);
                 ReadColumns(p).parser == p.(fields := p.fields + DecodedAll(cs[..d.count]), unread := w[d.at..c]))
    decreases |cs|
  {
    hide ReadColumns, EncodeField, At, Packet, EofPayload, Decoded;
    var eof := Packet(j, EofPayload(e));
    AtSplit(w, a, ColumnPackets(cs, i), eof);
    if cs == [] {
      ColumnsEnd(p, w, a, c, j, e);
      assert DecodedAll(cs) == [] && p.fields + [] == p.fields && cs[..0] == cs;
    } else {
      var payload := EncodeField(cs[0]);
      var tail := ColumnPackets(cs[1..], i + 1);
      assert ColumnPackets(cs, i) + eof == Packet(i, payload) + (tail + eof);
      AtSplit(w, a, Packet(i, payload), tail + eof);
      ColumnStep(p, w, a, c, cs[0], i);
      var next := a + 4 + |payload|;
      AtTail(w, next, tail + eof);
      EofPacketLength(j, e);
      if next <= c {
        var q := p.(fields := p.fields + [Decoded(cs[0])], unread := w[next..c]);
        DecodedNamed(cs[0]);
        ColumnsSeen(q, w, next, c, cs[1..], i + 1, j, e);
        DecodedNext(p.fields, cs, |cs| - 1);
        DecodedNext(p.fields, cs, ColumnsReach(cs[1..], next, c).count);
      } else {
        LaterHeaders(cs[1..], next, c);
        assert DecodedAll(cs[..0]) == [] && p.fields + [] == p.fields;
      }
    }
  }

  lemma DecodedNamed(c: ColumnDef)
    requires ValidColumn(c)
    ensures |Decoded(c).strings| == STRINGS
  {
  }

  lemma DecodedNext(fields: seq<Field>, cs: seq<ColumnDef>, k: nat)
    requires k < |cs|
    ensures fields + DecodedAll(cs[..k + 1]) == (fields + [Decoded(cs[0])]) + DecodedAll(cs[1..][..k])
    ensures k + 1 == |cs| ==> cs[..k + 1] == cs && cs[1..][..k] == cs[1..]
  {
    hide Decoded;
    assert DecodedAll(cs[..k + 1]) == [Decoded(cs[0])] + DecodedAll(cs[1..][..k]);
  }

  lemma EofPacketLength(j: nat, e: EofPacket)
    ensures |Packet(j, EofPayload(e))| == EOF_SIZE
  {
  }

  lemma PacketLength(i: nat, payload: seq<Byte>)
    ensures |Packet(i, payload)| == 4 + |payload|
  {
  }

  lemma {:induction false} LaterHeaders(cs: seq<ColumnDef>, a: nat, c: nat)
    requires ValidColumns(cs)
    requires c < a
    ensures !CutsHeader(cs, a, c)
    decreases |cs|
  {
    if cs != [] {
      LaterHeaders(cs[1..], a + 4 + |EncodeField(cs[0])|, c);
    }
  }

  // --------------------------------------------------------- prefixes of the rows

  /** The packets of `rows`, the first of which starts at `a`, within the first `c` bytes. */
  ghost function RowsReach(rows: seq<seq<Cell>>, a: nat, c: nat): (d: Reach)
    ensures d.count <= |rows| && a <= d.at && (a <= c ==> d.at <= c)
  {
    if rows == [] || c < a + 4 + |WriteCells(rows[0])| then Reach(0, a)
    else var d := RowsReach(rows[1..], a + 4 + |WriteCells(rows[0])|, c); d.(count := d.count + 1)
  }

  /** One row packet at `a`, seen up to `c`. */
  lemma RowStep(p: Parser, w: seq<Byte>, a: nat, c: nat, cells: seq<Cell>, i: nat)
    requires p.Valid() && p.fields != [] && ValidRow(cells, |p.fields|)
    requires At(w, a, Packet(i, WriteCells(cells)))
    requires a <= c <= |w| && p.unread == w[a..c]
    ensures var next := a + 4 + |WriteCells(cells)|;
            && |Packet(i, WriteCells(cells))| == 4 + |WriteCells(cells)|
            && (c < next ==> ReadRows(p) == Result(Again, p))
            && (next <= c ==>
                 ReadRows(p) == ReadRows(p.(rows := p.rows + [RowOf(p.fields, cells, map[])], unread := w[next..c])))
  {
    hide DecodeRow, Le, WriteCells, At, Packet, RowOf;
    var payload := WriteCells(cells);
    PacketLength(i, payload);
    RowIsNotEof(cells);
    if a + 4 <= c {
      PacketSeen(w, a, c, i, payload);
      RowRoundTrip(p.fields, cells);
    }
  }

  lemma RowsEnd(p: Parser, w: seq<Byte>, a: nat, c: nat, j: nat, e: EofPacket)
    requires p.Valid() && ValidEof(e) && At(w, a, Packet(j, EofPayload(e)))
    requires a <= c <= |w| && p.unread == w[a..c]
    ensures a + EOF_SIZE <= |w|
    ensures c < a + EOF_SIZE ==> ReadRows(p) == Result(Again, p)
    ensures c == a + EOF_SIZE ==>
              ReadRows(p) == Result(Finished,
                p.(unread := Packet(j, EofPayload(e)), warnings := e.warnings, status := e.status))
  {
    hide Le, At, Packet, EofPayload, DecodeRow;
    var eof := Packet(j, EofPayload(e));
    EofSeen(w, a, j, e);
    EofPayloadLength(e);
    if a + 4 <= c {
      PacketSeen(w, a, c, j, EofPayload(e));
    }
    AtTail(w, a, eof);
    if c == a + EOF_SIZE {
      assert w[a..][..EOF_SIZE] == eof && w[a..c] == w[a..][..EOF_SIZE];
    }
  }

  /** The rows and their EOF packet from `a` on, seen up to `c`. */
  lemma {:induction false} RowsSeen(
    p: Parser, w: seq<Byte>, a: nat, c: nat, rows: seq<seq<Cell>>, i: nat, j: nat, e: EofPacket)
    requires p.Valid() && p.fields != []
    requires ValidRows(rows, |p.fields|)
    requires ValidEof(e) && At(w, a, RowPackets(rows, i) + Packet(j, EofPayload(e)))
    requires a <= c <= |w| && p.unread == w[a..c]
    ensures var b := a + |RowPackets(rows, i)|;
            && b + EOF_SIZE <= |w|
            && (c == b + EOF_SIZE ==>
                 ReadRows(p) == Result(Finished,
                       p.(rows := p.rows + RowsOf(p.fields, rows), unread := Packet(j, EofPayload(e)),
                          warnings := e.warnings, status := e.status)))
            && (c < b + EOF_SIZE ==>
                 var d := RowsReach(rows, a, c);
                 ReadRows(p) == Result(Again,
                   p.(rows := p.rows + RowsOf(p.fields, rows[..d.count]), unread := w[d.at..c])))
    decreases |rows|
  {
    hide ReadRows, WriteCells, At, Packet, EofPayload, RowOf;
    var eof := Packet(j, EofPayload(e));
    AtSplit(w, a, RowPackets(rows, i), eof);
    if rows == [] {
      RowsEnd(p, w, a, c, j, e);
      assert RowsOf(p.fields, rows) == [] && p.rows + [] == p.rows && rows[..0] == rows;
    } else {
      var payload := WriteCells(rows[0]);
      var tail := RowPackets(rows[1..], i + 1);
      assert RowPackets(rows, i) + eof == Packet(i, payload) + (tail + eof);
      AtSplit(w, a, Packet(i, payload), tail + eof);
      assert ValidRow(rows[0], |p.fields|);
      RowStep(p, w, a, c, rows[0], i);
      var next := a + 4 + |payload|;
      AtTail(w, next, tail + eof);
      EofPacketLength(j, e);
      if next <= c {
        var q := p.(rows := p.rows + [RowOf(p.fields, rows[0], map[])], unread := w[next..c]);
        RowsSeen(q, w, next, c, rows[1..], i + 1, j, e);
        var k := RowsReach(rows[1..], next, c).count;
        RowsOfNext(p.rows, p.fields, rows, rows[0], rows[1..]);
        RowsOfNext(p.rows, p.fields, rows[..k + 1], rows[0], rows[1..][..k]);
      } else {
        assert RowsOf(p.fields, rows[..0]) == [] && p.rows + [] == p.rows;
      }
    }
  }

  lemma RowsOfNext(got: seq<Row>, fields: seq<Field>, rows: seq<seq<Cell>>, row: seq<Cell>, rest: seq<seq<Cell>>)
    requires NamedFields(fields) && ValidRows(rows, |fields|) && rows == [row] + rest
    ensures ValidRow(row, |fields|) && ValidRows(rest, |fields|)
    ensures got + RowsOf(fields, rows) == (got + [RowOf(fields, row, map[])]) + RowsOf(fields, rest)
  {
    hide RowsOf, RowOf, ValidRows, NamedFields, WriteCells;
    RowsOfHead(fields, rows, row, rest);
    Assoc(got, [RowOf(fields, row, map[])], RowsOf(fields, rest));
  }

  lemma RowsOfAt(fields: seq<Field>, rows: seq<seq<Cell>>, k: nat)
    requires NamedFields(fields) && ValidRows(rows, |fields|) && k < |rows|
    ensures ValidRow(rows[k], |fields|) && RowsOf(fields, rows)[k] == RowOf(fields, rows[k], map[])
  {
    hide RowOf, WriteCells, NamedFields;
  }

  lemma RowsOfHead(fields: seq<Field>, rows: seq<seq<Cell>>, row: seq<Cell>, rest: seq<seq<Cell>>)
    requires NamedFields(fields) && ValidRows(rows, |fields|) && rows == [row] + rest
    ensures ValidRow(row, |fields|) && ValidRows(rest, |fields|)
    ensures RowsOf(fields, rows) == [RowOf(fields, row, map[])] + RowsOf(fields, rest)
  {
    hide RowOf, WriteCells, NamedFields, RowsOf;
    RowsOfAt(fields, rows, 0);
    forall k | 0 <= k < |rest| ensures ValidRow(rest[k], |fields|) {
      assert rest[k] == rows[k + 1];
    }
    forall k | 0 <= k < |rest| ensures RowsOf(fields, rows)[k + 1] == RowsOf(fields, rest)[k] {
      RowsOfAt(fields, rows, k + 1);
      RowsOfAt(fields, rest, k);
    }
  }

  lemma EofPayloadLength(e: EofPacket)
    ensures |EofPayload(e)| == 5
  {
  }

  // ------------------------------------------------- prefixes of the whole response

  ghost function CountSize(r: ResultSet): nat {
    4 + |WriteLcb(|r.columns|)|
  }

  /** A delivery that ends at byte `c` leaves fewer than four bytes of the next column packet. */
  ghost predicate BadCut(r: ResultSet, c: nat)
    requires r.Valid()
  {
    CutsHeader(r.columns, CountSize(r), c)
  }

  /** The call read past its input, or reported success with no column read. */
  ghost predicate Strands(got: Result) {
    got.outcome == OverRead || (got.outcome == Finished && got.parser.state == ReadField)
  }

  lemma HeadSeen(p: Parser, w: seq<Byte>, c: nat, n: nat)
    requires c <= |w| && p == Initial().More(w[..c])
    requires 0 < n < TWO16 && At(w, 0, Packet(1, WriteLcb(n)))
    ensures var size := 4 + |WriteLcb(n)|;
            && |Packet(1, WriteLcb(n))| == size
            && (c < size ==> ReadHead(p) == Result(Again, p))
            && (size <= c ==>
                 ReadHead(p) == Result(Finished, p.(state := ReadField, numColumn := n, unread := w[size..c])))
  {
    hide Le, At, Packet, ReadLcb, WriteLcb, ReadOk, ReadHead;
    var lcb := WriteLcb(n);
    PacketLength(1, lcb);
    assert w[0..c] == w[..c] == p.unread;
    if 4 <= c {
      PacketSeen(w, 0, c, 1, lcb);
    }
    if 4 + |lcb| <= c {
      HeadComplete(p, n);
    } else {
      HeadShort(p, |lcb|);
    }
  }

  lemma HeadShort(p: Parser, size: nat)
    requires p.Valid() && |p.unread| < 4 + size && (|p.unread| >= 4 ==> Le(p.unread[..3]) == size)
    ensures ReadHead(p) == Result(Again, p)
  {
    hide Le, ReadLcb, ReadOk;
  }

  lemma HeadComplete(p: Parser, n: nat)
    requires p.Valid() && 0 < n < TWO16
    requires var size := |WriteLcb(n)|;
             |p.unread| >= 4 + size && Le(p.unread[..3]) == size && p.unread[4..4 + size] == WriteLcb(n)
    ensures ReadHead(p) == Result(Finished,
              p.(state := ReadField, numColumn := n, fields := [], unread := p.unread[4 + |WriteLcb(n)|..]))
  {
    var b := p.unread;
    var lcb := WriteLcb(n);
    var size := 4 + |lcb|;
    assert lcb[0] == if n < 251 then n else 252;
    hide Le, ReadLcb, WriteLcb, ReadOk;
    LcbRoundTrip(n, b[size..]);
    assert b[4..] == b[4..size] + b[size..];
    assert b[4] == b[4..size][0] == lcb[0];
  }

  /** Where the columns with their EOF packet, and the rows end. */
  ghost function ColumnsEndAt(r: ResultSet): nat
    requires r.Valid()
  {
    CountSize(r) + |ColumnPackets(r.columns, 2)| + EOF_SIZE
  }

  ghost function LastRowEnd(r: ResultSet): nat
    requires r.Valid()
  {
    ColumnsEndAt(r) + |RowPackets(r.rows, 3 + |r.columns|)|
  }

  lemma ThreeParts(a: seq<Byte>, b: seq<Byte>, c: seq<Byte>)
    ensures var w := a + b + c; At(w, 0, a) && At(w, |a|, b) && At(w, |a| + |b|, c)
  {
    var w := a + b + c;
    AtWhole(w);
    hide At;
    AtSplit(w, 0, a + b, c);
    AtSplit(w, 0, a, b);
  }

  /** The three parts of a response, and where they stand. */
  lemma PartsAt(r: ResultSet)
    requires r.Valid()
    ensures var w, n := Encode(r), |r.columns|;
            && |w| == LastRowEnd(r) + EOF_SIZE
            && At(w, 0, Packet(1, WriteLcb(n)))
            && At(w, CountSize(r), ColumnPackets(r.columns, 2) + Packet(2 + n, EofPayload(r.eof1)))
            && At(w, ColumnsEndAt(r), RowPackets(r.rows, 3 + n) + Packet(3 + n + |r.rows|, EofPayload(r.eof2)))
  {
    hide At, Packet, EofPayload, WriteLcb, EncodeField, ColumnPackets, RowPackets, ValidColumns, ValidRows;
    var n := |r.columns|;
    var head := Packet(1, WriteLcb(n));
    var columns := ColumnPackets(r.columns, 2) + Packet(2 + n, EofPayload(r.eof1));
    var rows := RowPackets(r.rows, 3 + n) + Packet(3 + n + |r.rows|, EofPayload(r.eof2));
    PacketLength(1, WriteLcb(n));
    EofPacketLength(2 + n, r.eof1);
    EofPacketLength(3 + n + |r.rows|, r.eof2);
    ThreeParts(head, columns, rows);
  }

  lemma PartsInOrder(r: ResultSet)
    requires r.Valid()
    ensures 5 <= CountSize(r) < ColumnsEndAt(r) <= LastRowEnd(r)
  {
    assert |WriteLcb(|r.columns|)| >= 1;
  }

  lemma CountRead(p: Parser, q: Parser, w: seq<Byte>, c: nat, n: nat)
    requires 0 < n < TWO16 && At(w, 0, Packet(1, WriteLcb(n))) && 5 <= 4 + |WriteLcb(n)| <= c <= |w|
    requires p == Initial().More(w[..c])
    requires q.Valid() && q == Initial().(state := ReadField, numColumn := n, unread := w[4 + |WriteLcb(n)|..c])
    ensures && (c > 5 ==> Response(p) == ResponseColumns(q))
            && (c <= 5 ==> Response(p) == Result(Finished, q))
  {
    hide ReadHead, ResponseColumns, At, Packet, WriteLcb;
    assert p.unread == w[..c];
    HeadSeen(p, w, c, n);
  }

  /** What one call makes of a prefix that has the count packet and more. */
  lemma BehindCount(r: ResultSet, c: nat)
    requires r.Valid() && CountSize(r) <= c <= |Encode(r)|
    ensures var p, q := Initial().More(Encode(r)[..c]), AfterCount(r, c);
            && (c > 5 ==> Response(p) == ResponseColumns(q))
            && (c <= 5 ==> Response(p) == Result(Finished, q))
  {
    CountAt(r);
    hide ResultSet.Valid, Response, ResponseColumns, Encode, At, Packet, WriteLcb, Initial;
    CountRead(Initial().More(Encode(r)[..c]), AfterCount(r, c), Encode(r), c, |r.columns|);
  }

  lemma CountAt(r: ResultSet)
    requires r.Valid()
    ensures At(Encode(r), 0, Packet(1, WriteLcb(|r.columns|))) && 5 <= CountSize(r) && 0 < |r.columns| < TWO16
  {
    hide Response, ResponseColumns, Encode, At, Packet, EofPayload, WriteLcb, ColumnPackets, RowPackets, ValidColumns,
      ValidRows;
    PartsAt(r);
    PartsInOrder(r);
  }

  /** The parser behind the count packet, the stream being known up to `c`. */
  ghost function AfterCount(r: ResultSet, c: nat): (q: Parser)
    requires r.Valid() && CountSize(r) <= c <= |Encode(r)|
    ensures q.Valid()
  {
    Initial().(state := ReadField, numColumn := |r.columns|, unread := Encode(r)[CountSize(r)..c])
  }

  /** The parser when it waits with the first `c` bytes parsed: it has the columns and rows that are
      complete, and what is behind the last complete packet is unread. */
  ghost function Waiting(r: ResultSet, c: nat): (p: Parser)
    requires r.Valid() && c <= |Encode(r)|
    ensures p.Valid() && (p.state == ReadRow ==> p.numColumn > 0)
  {
    var w, n := Encode(r), |r.columns|;
    if c < CountSize(r) then Initial().More(w[..c])
    else if c < ColumnsEndAt(r) then
      var d := ColumnsReach(r.columns, CountSize(r), c);
      DecodedAllNamed(r.columns[..d.count]);
      Initial().(state := ReadField, numColumn := n, fields := DecodedAll(r.columns[..d.count]), unread := w[d.at..c])
    else
      var d := RowsReach(r.rows, ColumnsEndAt(r), c);
      AtRows(r, d.count, w[d.at..c])
  }

  /** Within the columns a call waits, or reads past its input where a header is cut. */
  lemma WithinColumns(r: ResultSet, c: nat)
    requires r.Valid() && CountSize(r) <= c < ColumnsEndAt(r) && c <= |Encode(r)|
    ensures var got := ResponseColumns(AfterCount(r, c));
            if BadCut(r, c) then got.outcome == OverRead else got == Result(Again, Waiting(r, c))
    ensures ReadColumns(AfterCount(r, c)).outcome != Finished
  {
    hide ReadColumns, Encode, At, Packet, EofPayload, WriteLcb, CutsHeader, ColumnPackets, RowPackets, ValidRows,
      DecodedAll;
    PartsAt(r);
    var q := AfterCount(r, c);
    ColumnsSeen(q, Encode(r), CountSize(r), c, r.columns, 2, 2 + |r.columns|, r.eof1);
    var k := ColumnsReach(r.columns, CountSize(r), c).count;
    assert [] + DecodedAll(r.columns[..k]) == DecodedAll(r.columns[..k]);
  }

  lemma ColumnsComplete(r: ResultSet, c: nat)
    requires r.Valid() && ColumnsEndAt(r) <= c <= |Encode(r)| && CountSize(r) <= c
    ensures !BadCut(r, c)
    ensures NamedFields(DecodedAll(r.columns))
    ensures var q := AfterCount(r, c);
            ReadColumns(q) == Result(Finished,
               q.(fields := DecodedAll(r.columns), unread := Encode(r)[ColumnsEndAt(r)..c],
                  warnings := r.eof1.warnings, status := r.eof1.status))
  {
    DecodedAllNamed(r.columns);
    PartsAt(r);
    hide ReadColumns, Encode, At, Packet, EofPayload, WriteLcb, CutsHeader, ColumnPackets, RowPackets, ValidColumns,
      ValidRows, DecodedAll;
    ColumnsSeen(AfterCount(r, c), Encode(r), CountSize(r), c, r.columns, 2, 2 + |r.columns|, r.eof1);
    assert [] + DecodedAll(r.columns) == DecodedAll(r.columns);
  }

  lemma RowsAt(r: ResultSet)
    requires r.Valid()
    ensures var w, n := Encode(r), |r.columns|;
            && |w| == ColumnsEndAt(r) + |RowPackets(r.rows, 3 + n)| + EOF_SIZE
            && At(w, ColumnsEndAt(r), RowPackets(r.rows, 3 + n) + Packet(3 + n + |r.rows|, EofPayload(r.eof2)))
  {
    hide Encode, At, Packet, EofPayload, WriteLcb, ColumnPackets, RowPackets, ValidColumns, ValidRows;
    PartsAt(r);
  }

  /** Behind the columns a call waits for the last byte, with the rows that are complete. */
  lemma WithinRows(r: ResultSet, c: nat)
    requires r.Valid() && ColumnsEndAt(r) <= c <= |Encode(r)| && CountSize(r) <= c
    ensures !BadCut(r, c)
    ensures var w := Encode(r);
            var got := ResponseColumns(AfterCount(r, c));
            && (c == |w| ==> got == Result(Finished, Final(r)))
            && (c < |w| ==> got == Result(Again, Waiting(r, c)))
  {
    RowsAt(r);
    ColumnsComplete(r, c);
    hide ResultSet.Valid, BadCut, ReadColumns, ResponseRows, Encode, At, Packet, EofPayload, RowPackets, Final,
      DecodedAll;
    var b := ColumnsEndAt(r);
    RowsAfterColumns(r, Encode(r), b, c);
    assert ReadColumns(AfterCount(r, c)).parser.(state := ReadRow) == AtRows(r, 0, Encode(r)[b..c]);
  }

  /** What one call makes of the first `c` bytes of a well-formed response. */
  lemma ResponseSeen(r: ResultSet, c: nat)
    requires r.Valid() && 0 < c <= |Encode(r)|
    ensures var w := Encode(r);
            var got := Response(Initial().More(w[..c]));
            && (c == |w| ==> got == Result(Finished, Final(r)))
            && (c < |w| && !BadCut(r, c) ==> got == Result(Again, Waiting(r, c)) && Waits(Initial(), w[..c]))
            && (BadCut(r, c) ==> Strands(got))
  {
    PartsAt(r);
    PartsInOrder(r);
    hide Encode, CutsHeader, Response, ResponseColumns, ReadColumns, CountSize, ColumnsEndAt, LastRowEnd, ValidColumns,
      ValidRows, Final, Waiting;
    if c < CountSize(r) {
      CountSeen(r, c);
    } else {
      BehindCount(r, c);
      if c < ColumnsEndAt(r) { WithinColumns(r, c); } else { WithinRows(r, c); }
      if c == 5 { CutAtCount(r); }
    }
  }

  lemma CutAtCount(r: ResultSet)
    requires r.Valid() && CountSize(r) <= 5
    ensures BadCut(r, 5)
  {
    FirstHeader(r.columns, CountSize(r), 5);
  }

  lemma CountSeen(r: ResultSet, c: nat)
    requires r.Valid() && 0 < c < CountSize(r) && c <= |Encode(r)|
    ensures !BadCut(r, c) && c < |Encode(r)|
    ensures Response(Initial().More(Encode(r)[..c])) == Result(Again, Waiting(r, c))
  {
    PartsAt(r);
    PartsInOrder(r);
    hide ReadHead, Encode, At, Packet, EofPayload, WriteLcb, CutsHeader, ColumnPackets, RowPackets, EncodeField,
      ValidColumns, ValidRows;
    LaterHeaders(r.columns, CountSize(r), c);
    HeadSeen(Initial().More(Encode(r)[..c]), Encode(r), c, |r.columns|);
  }

  lemma FirstHeader(cs: seq<ColumnDef>, a: nat, c: nat)
    requires ValidColumns(cs) && cs != [] && a <= c < a + 4
    ensures CutsHeader(cs, a, c)
  {
  }

  lemma AtWhole(w: seq<Byte>)
    ensures At(w, 0, w)
  {
    assert w[0..|w|] == w;
  }

  /** The parser behind the columns and their EOF packet, the stream being known up to `c`. */
  ghost function AtRows(r: ResultSet, rows: nat, unread: seq<Byte>): (p: Parser)
    requires r.Valid() && rows <= |r.rows|
    ensures p.Valid() && (p.state == ReadRow ==> p.numColumn > 0)
  {
    DecodedAllNamed(r.columns);
    var fields := DecodedAll(r.columns);
    Parser(ReadRow, unread, |r.columns|, fields, RowsOf(fields, r.rows[..rows]),
           r.eof1.warnings, r.eof1.status, NoReply)
  }

  /** The rest of `ResponseSeen`, once the columns are complete at `b`. */
  lemma RowsAfterColumns(r: ResultSet, w: seq<Byte>, b: nat, c: nat)
    requires r.Valid() && b <= c <= |w|
    requires At(w, b, RowPackets(r.rows, 3 + |r.columns|) + Packet(3 + |r.columns| + |r.rows|, EofPayload(r.eof2)))
    requires |w| == b + |RowPackets(r.rows, 3 + |r.columns|)| + EOF_SIZE
    ensures c == |w| ==> ResponseRows(AtRows(r, 0, w[b..c])) == Result(Finished, Final(r))
    ensures var d := RowsReach(r.rows, b, c);
            c < |w| ==> ResponseRows(AtRows(r, 0, w[b..c])) == Result(Again, AtRows(r, d.count, w[d.at..c]))
  {
    hide ReadRows, At, Packet, EofPayload, RowPackets, DecodedAll, RowOf, WriteCells;
    var n := |r.columns|;
    var s := AtRows(r, 0, w[b..c]);
    RowsSeen(s, w, b, c, r.rows, 3 + n, 3 + n + |r.rows|, r.eof2);
    var k := RowsReach(r.rows, b, c).count;
    assert s.rows == [];
    NothingBefore(RowsOf(s.fields, r.rows));
    NothingBefore(RowsOf(s.fields, r.rows[..k]));
  }

  lemma NothingBefore(rows: seq<Row>)
    ensures [] + rows == rows
  {
  }

  // ------------------------------------------------------------- the main theorem

  ghost predicate GoodCuts(r: ResultSet, chunks: seq<seq<Byte>>)
    requires r.Valid()
  {
    forall k :: 0 < k < |chunks| ==> !BadCut(r, |Flatten(chunks[..k])|)
  }

  lemma {:induction false} FlattenPrefix(chunks: seq<seq<Byte>>, k: nat)
    requires k <= |chunks| && NonEmptyChunks(chunks)
    ensures |Flatten(chunks[..k])| <= |Flatten(chunks)|
    ensures Flatten(chunks[..k]) == Flatten(chunks)[..|Flatten(chunks[..k])|]
    ensures k < |chunks| ==> |Flatten(chunks[..k])| < |Flatten(chunks)|
    ensures 0 < k ==> 0 < |Flatten(chunks[..k])|
    decreases k
  {
    if k > 0 {
      FlattenHead(chunks, k);
      FlattenPrefix(chunks[1..], k - 1);
      assert Flatten(chunks) == chunks[0] + Flatten(chunks[1..]);
    } else {
      assert chunks[..0] == [];
      if chunks != [] {
        assert Flatten(chunks) == chunks[0] + Flatten(chunks[1..]);
      }
    }
  }

  /** A run that ends before its last delivery does not look at the later ones. */
  lemma {:induction false} RunStops(p: Parser, chunks: seq<seq<Byte>>, k: nat)
    requires p.Valid() && 0 < k <= |chunks|
    requires Run(p, chunks[..k]).outcome != Again
    ensures Run(p, chunks) == Run(p, chunks[..k])
    decreases k
  {
    hide Response;
    var r := Response(p.More(chunks[0]));
    if r.outcome == Again && k > 1 {
      assert chunks[..k][1..] == chunks[1..][..k - 1];
      RunStops(r.parser, chunks[1..], k - 1);
    }
  }

  /** For every well-formed result set and every way to cut its bytes into deliveries, the
      run yields exactly its columns and rows and stops on its last byte if and only if no
      delivery stops inside or right before the header of a column packet. */
  lemma ChunkIndependence(r: ResultSet, chunks: seq<seq<Byte>>)
    requires r.Valid()
    requires chunks != [] && NonEmptyChunks(chunks) && Flatten(chunks) == Encode(r)
    ensures Run(Initial(), chunks) == Result(Finished, Final(r)) <==> GoodCuts(r, chunks)
  {
    hide Response, Encode, BadCut;
    var w := Encode(r);
    if GoodCuts(r, chunks) {
      forall k | 0 < k < |chunks| ensures Waits(Initial(), Flatten(chunks[..k])) {
        FlattenPrefix(chunks, k);
        ResponseSeen(r, |Flatten(chunks[..k])|);
      }
      RunIsOneCall(Initial(), chunks);
      FlattenPrefix(chunks, |chunks|);
      assert chunks[..|chunks|] == chunks && w[..|w|] == w;
      ResponseSeen(r, |w|);
    } else {
      var k := FirstBadCut(r, chunks);
      StopsAtBadCut(r, chunks, k);
    }
  }

  lemma FirstBadCut(r: ResultSet, chunks: seq<seq<Byte>>) returns (k: nat)
    requires r.Valid() && !GoodCuts(r, chunks)
    ensures 0 < k < |chunks| && BadCut(r, |Flatten(chunks[..k])|)
    ensures forall j :: 0 < j < k ==> !BadCut(r, |Flatten(chunks[..j])|)
  {
    hide BadCut;
    k := 1;
    while !BadCut(r, |Flatten(chunks[..k])|)
      invariant 0 < k < |chunks|
      invariant forall j :: 0 < j < k ==> !BadCut(r, |Flatten(chunks[..j])|)
      decreases |chunks| - k
    {
      k := k + 1;
    }
  }

  lemma StopsAtBadCut(r: ResultSet, chunks: seq<seq<Byte>>, k: nat)
    requires r.Valid()
    requires NonEmptyChunks(chunks) && Flatten(chunks) == Encode(r)
    requires 0 < k < |chunks| && BadCut(r, |Flatten(chunks[..k])|)
    requires forall j :: 0 < j < k ==> !BadCut(r, |Flatten(chunks[..j])|)
    ensures Strands(Run(Initial(), chunks))
  {
    hide Response, Encode, BadCut;
    var cut := chunks[..k];
    forall j | 0 < j < |cut| ensures Waits(Initial(), Flatten(cut[..j])) {
      assert cut[..j] == chunks[..j];
      FlattenPrefix(chunks, j);
      ResponseSeen(r, |Flatten(chunks[..j])|);
    }
    RunIsOneCall(Initial(), cut);
    FlattenPrefix(chunks, k);
    ResponseSeen(r, |Flatten(cut)|);
    if Run(Initial(), cut).outcome != Again {
      RunStops(Initial(), chunks, k);
    }
  }

  // ---------------------------------------------------------- what goes wrong, and where

  /** With fewer than 251 columns, a delivery that ends with the count packet makes the call
      report success: no column, no row. */
  lemma CountAloneSucceeds(r: ResultSet)
    requires r.Valid() && |r.columns| < 251
    ensures 5 <= |Encode(r)|
    ensures Response(Initial().More(Encode(r)[..5])) ==
            Result(Finished, Initial().(state := ReadField, numColumn := |r.columns|))
  {
    hide ReadHead, At, Packet, ColumnPackets, RowPackets, EofPayload, WriteLcb;
    var w, n := Encode(r), |r.columns|;
    var head := Packet(1, WriteLcb(n));
    var rest := (ColumnPackets(r.columns, 2) + Packet(2 + n, EofPayload(r.eof1)))
                + (RowPackets(r.rows, 3 + n) + Packet(3 + n + |r.rows|, EofPayload(r.eof2)));
    assert w == head + rest;
    OneByteLcb(n);
    PacketLength(1, WriteLcb(n));
    AtWhole(head + rest);
    AtSplit(w, 0, head, rest);
    HeadSeen(Initial().More(w[..5]), w, 5, n);
    assert w[5..5] == [];
  }

  lemma OneByteLcb(n: nat)
    requires n < 251
    ensures |WriteLcb(n)| == 1
  {
  }

  /** Without columns, resuming is not the same as one call: a count packet that says NULL, the EOF
      packet behind no columns, and five bytes that make an empty row; with four more behind them
      they are the last EOF packet. */
  lemma ZeroColumnsNotResumable()
    ensures var p := Initial().More([1, 0, 0, 1, 251] + [5, 0, 0, 2, 254, 0, 0, 2, 0] + [1, 0, 0, 3, 254]);
            var v: seq<Byte> := [0, 0, 0, 0];
            && p.Valid() && Response(p).outcome == Again
            && Response(p.More(v)) != Response(Response(p).parser.More(v))
  {
    hide Le, Mistaken;
    var tail: seq<Byte>, v: seq<Byte> := [1, 0, 0, 3, 254], [0, 0, 0, 0];
    var p := Initial().More([1, 0, 0, 1, 251] + [5, 0, 0, 2, 254, 0, 0, 2, 0] + tail);
    var q := NoColumns(tail);
    LeSmall(1);
    OneRowThenNothing(q, tail);
    TailMistaken(tail, v);
    Resume(p, v);
  }

  /** A response with the count NULL, up to its rows. */
  lemma NoColumns(tail: seq<Byte>) returns (q: Parser)
    ensures var p := Initial().More([1, 0, 0, 1, 251] + [5, 0, 0, 2, 254, 0, 0, 2, 0] + tail);
            && RowPhase(p) == Some(q) && Response(p) == ResponseRows(q)
            && q.Valid() && q.fields == [] && q.numColumn == 0 && q.unread == tail
  {
    hide Le, ReadHead, ReadRows, ReadColumns;
    var eof: seq<Byte> := [5, 0, 0, 2, 254, 0, 0, 2, 0];
    var u := [1, 0, 0, 1, 251] + eof + tail;
    var p := Initial().More(u);
    assert p.unread == u;
    var h := NullCount(p, eof + tail);
    NoColumnsEof(h, tail);
    q := ReadColumns(h).parser.(state := ReadRow);
  }

  lemma NullCount(p: Parser, rest: seq<Byte>) returns (h: Parser)
    requires p.Valid() && p.unread == [1, 0, 0, 1, 251] + rest
    ensures h == p.(state := ReadField, numColumn := 0, fields := [], unread := rest)
            && ReadHead(p) == Result(Finished, h)
  {
    hide Le;
    var u := p.unread;
    assert u[..3] == [1, 0, 0];
    LeSmall(1);
    assert u[4 + 1..] == rest;
    h := p.(state := ReadField, numColumn := 0, fields := [], unread := rest);
  }

  lemma NoColumnsEof(h: Parser, tail: seq<Byte>)
    requires h.Valid() && h.numColumn == 0 && h.unread == [5, 0, 0, 2, 254, 0, 0, 2, 0] + tail
    ensures var r := ReadColumns(h); r.outcome == Finished && r.parser.fields == [] && r.parser.unread == tail
  {
    hide Le;
    assert h.unread[EOF_SIZE..] == tail;
  }

  lemma OneRowThenNothing(q: Parser, tail: seq<Byte>)
    requires q.Valid() && q.fields == [] && q.unread == tail == [1, 0, 0, 3, 254]
    ensures ReadRows(q).outcome == Again
  {
    hide Le;
    assert tail[..3] == [1, 0, 0];
    LeSmall(1);
    assert tail[4 + 1..] == [];
  }

  lemma TailMistaken(tail: seq<Byte>, v: seq<Byte>)
    requires tail == [1, 0, 0, 3, 254] && v == [0, 0, 0, 0]
    ensures Mistaken(tail, v)
  {
    hide Le;
    assert tail[..3] == [1, 0, 0];
    LeSmall(1);
  }

  lemma LeSmall(b: Byte)
    ensures Le([b, 0, 0]) == b
  {
    var three: seq<Byte>, two: seq<Byte>, one: seq<Byte> := [b, 0, 0], [0, 0], [0];
    assert three[1..] == two && two[1..] == one && one[1..] == [];
    assert Le(one) == 0 && Le(two) == 0;
  }

  /** OK, error and EOF replies do not depend on the cuts at all. */
  lemma ReplyChunkIndependence(i: nat, payload: seq<Byte>, chunks: seq<seq<Byte>>)
    requires 0 < |payload| < TWO24 && payload[0] in {0, 254, 255}
    requires chunks != [] && NonEmptyChunks(chunks) && Flatten(chunks) == Packet(i, payload)
    ensures Run(Initial(), chunks) == Response(Initial().More(Packet(i, payload)))
  {
    hide Response, Packet, ReadHead;
    var w := Packet(i, payload);
    forall k | 0 < k < |chunks| ensures Waits(Initial(), Flatten(chunks[..k])) {
      FlattenPrefix(chunks, k);
      ReplyWaits(i, payload, |Flatten(chunks[..k])|);
    }
    RunIsOneCall(Initial(), chunks);
  }

  lemma ReplyWaits(i: nat, payload: seq<Byte>, c: nat)
    requires 0 < |payload| < TWO24 && 0 < c < |Packet(i, payload)|
    ensures Waits(Initial(), Packet(i, payload)[..c])
  {
    hide Le, Packet, At;
    var w := Packet(i, payload);
    AtWhole(w);
    PacketLength(i, payload);
    if 4 <= c {
      PacketSeen(w, 0, c, i, payload);
    }
    assert w[..c] == w[0..c];
    assert Initial().More(w[..c]).unread == w[..c];
  }
}
