/**
  * How deliveries reach the parser through the client's receive buffer: a delivery that fills the
  * buffer makes it grow and is not parsed before the next one, and a buffer that moves when it
  * grows leaves the names of the columns decoded so far behind.
  */
module MysqlFeed {
  import opened Options
  import opened Bytes
  import MysqlField
  import MysqlRow
  import MysqlWire
  import opened MysqlParser
  import opened MysqlChunks

  /** What recv brings: bytes, together with whether the buffer moves if it has to grow for them;
      or nothing, for now. */
  datatype Event = Data(bytes: seq<Byte>, moves: bool) | Block

  /** The client: the parser, how full its buffer is, how many of its columns have been left behind,
      and how the last call ended. */
  datatype Link = Link(p: Parser, length: nat, size: nat, left: nat, outcome: Outcome)

  function Start(size: nat): Link {
    Link(Initial(), 0, size, 0, Again)
  }

  /** A call of mysql_response, up to where it reads the name of a column that was left behind. */
  function Parsed(l: Link): (r: Link)
    requires l.p.Valid()
    ensures r.p.Valid()
  {
    if ReadsName(l.p, l.left) then l.(outcome := Dangling)
    else var got := Response(l.p); l.(p := got.parser, outcome := got.outcome)
  }

  function Stored(l: Link, b: seq<Byte>): (r: Link)
    requires l.p.Valid()
    ensures r.p.Valid()
  {
    l.(p := l.p.More(b), length := l.length + |b|)
  }

  /** swString_extend: the block may move. */
  function Grown(l: Link, moves: bool): (r: Link)
    requires l.p.Valid()
    ensures r.p.Valid()
  {
    l.(size := 2 * l.size, left := if moves then |l.p.fields| else l.left)
  }

  function Deliver(l: Link, e: Event): (r: Link)
    requires l.p.Valid()
    ensures r.p.Valid()
  {
    if l.outcome != Again then l
    else match e
         case Data(b, moves) =>
           var t := Stored(l, b);
           if t.length == t.size then Grown(t, moves) else Parsed(t)
         case Block => Parsed(l)
  }

  function Feed(l: Link, es: seq<Event>): (r: Link)
    requires l.p.Valid()
    ensures r.p.Valid()
    decreases |es|
  {
    if es == [] then l else Feed(Deliver(l, es[0]), es[1..])
  }

  // ------------------------------------------------------- what the parser gets to see

  /** The deliveries merged as they are parsed together; `acc` has not been parsed yet. */
  function Pieces(length: nat, size: nat, acc: seq<Byte>, es: seq<Event>): seq<seq<Byte>>
    decreases |es|
  {
    if es == [] then []
    else match es[0]
         case Data(b, _) =>
           if length + |b| == size then Pieces(length + |b|, 2 * size, acc + b, es[1..])
           else [acc + b] + Pieces(length + |b|, size, [], es[1..])
         case Block => [acc] + Pieces(length, size, [], es[1..])
  }

  /** What has not been parsed in the end. */
  function Remainder(length: nat, size: nat, acc: seq<Byte>, es: seq<Event>): seq<Byte>
    decreases |es|
  {
    if es == [] then acc
    else match es[0]
         case Data(b, _) =>
           if length + |b| == size then Remainder(length + |b|, 2 * size, acc + b, es[1..])
           else Remainder(length + |b|, size, [], es[1..])
         case Block => Remainder(length, size, [], es[1..])
  }

  /** recv brings something that fits, or nothing for now. */
  ghost predicate Feasible(length: nat, size: nat, es: seq<Event>)
    decreases |es|
  {
    es != [] ==>
      match es[0]
      case Data(b, _) =>
        && b != [] && length + |b| <= size
        && Feasible(length + |b|, if length + |b| == size then 2 * size else size, es[1..])
      case Block => Feasible(length, size, es[1..])
  }

  lemma {:induction false} Ended(l: Link, es: seq<Event>)
    requires l.p.Valid() && l.outcome != Again
    ensures Feed(l, es) == l
    decreases |es|
  {
    if es != [] { Ended(l, es[1..]); }
  }

  lemma MoreMore(p: Parser, a: seq<Byte>, b: seq<Byte>)
    ensures p.More(a).More(b) == p.More(a + b) && p.More([]) == p
  {
    assert p.unread + a + b == p.unread + (a + b) && p.unread + [] == p.unread;
  }

  /** How full the buffer is after an event does not depend on what is parsed. */
  lemma DeliverSizes(l: Link, es: seq<Event>)
    requires l.p.Valid() && l.outcome == Again && es != [] && Feasible(l.length, l.size, es)
    ensures es[0].Data? ==> 0 < |es[0].bytes| <= l.size - l.length
    ensures Feasible(Deliver(l, es[0]).length, Deliver(l, es[0]).size, es[1..])
  {
    hide Response, ReadsName;
  }

  /** Unless a stale name is read, the client ends as the parser fed with the merged pieces. */
  lemma {:induction false} FeedIsRun(l: Link, p: Parser, acc: seq<Byte>, es: seq<Event>)
    requires p.Valid() && l.p == p.More(acc) && l.outcome == Again
    requires Remainder(l.length, l.size, acc, es) == []
    requires Feed(l, es).outcome != Dangling
    ensures var t := Feed(l, es); Result(t.outcome, t.p) == Run(p, Pieces(l.length, l.size, acc, es))
    decreases |es|, 0
  {
    hide Response, ReadsName;
    if es == [] {
      MoreMore(p, [], []);
    } else {
      var e := es[0];
      var t := Deliver(l, e);
      match e
      case Data(b, moves) =>
        MoreMore(p, acc, b);
        if l.length + |b| == l.size {
          FeedIsRun(t, p, acc + b, es[1..]);
        } else {
          ParsedPiece(Stored(l, b), p, acc + b, es[1..]);
        }
      case Block => ParsedPiece(l, p, acc, es[1..]);
    }
  }

  /** One call, and what follows. */
  lemma ParsedPiece(l: Link, p: Parser, piece: seq<Byte>, es: seq<Event>)
    requires p.Valid() && l.p == p.More(piece) && l.outcome == Again
    requires Remainder(l.length, l.size, [], es) == []
    requires Feed(Parsed(l), es).outcome != Dangling
    ensures var t := Feed(Parsed(l), es); Result(t.outcome, t.p) == Run(p, [piece] + Pieces(l.length, l.size, [], es))
    decreases |es|, 1
  {
    hide Response, ReadsName;
    var t := Parsed(l);
    var rest := Pieces(l.length, l.size, [], es);
    assert ([piece] + rest)[1..] == rest;
    if t.outcome != Again {
      Ended(t, es);
    } else {
      MoreMore(t.p, [], []);
      FeedIsRun(t, t.p, [], es);
    }
  }

  /** Behind the columns, a client that has left them all behind adds only empty rows, whatever it is
      sent: otherwise it reads a stale name. */
  lemma {:induction false} StaleAddsEmptyRows(l: Link, es: seq<Event>)
    requires l.p.Valid() && l.p.state in {ReadRow, ReadEnd} && l.left == |l.p.fields|
    ensures var t := Feed(l, es);
            || t.outcome == Dangling
            || (l.p.rows <= t.p.rows && forall k :: |l.p.rows| <= k < |t.p.rows| ==> t.p.rows[k] == map[])
    decreases |es|
  {
    hide Response, ReadsName;
    if es != [] {
      var t := Deliver(l, es[0]);
      if l.outcome != Again {
        Ended(l, es);
      } else if t.outcome == Dangling {
        Ended(t, es[1..]);
      } else {
        if es[0].Block? {
          UnnamedRowsEmpty(l.p);
        } else if l.length + |es[0].bytes| != l.size {
          UnnamedRowsEmpty(Stored(l, es[0].bytes).p);
        }
        StaleAddsEmptyRows(t, es[1..]);
      }
    }
  }

  lemma UnnamedRowsEmpty(p: Parser)
    requires p.Valid() && p.state in {ReadRow, ReadEnd} && !ReadsName(p, |p.fields|)
    ensures var q := Response(p).parser;
            && q.state in {ReadRow, ReadEnd} && q.fields == p.fields
            && p.rows <= q.rows && forall k :: |p.rows| <= k < |q.rows| ==> q.rows[k] == map[]
  {
    hide ReadRows, RowsReadName;
    if p.state == ReadRow && p.unread != [] {
      RowsAgain(p);
      UnnamedReadRows(p);
    }
  }

  lemma {:induction false} UnnamedReadRows(p: Parser)
    requires p.Valid() && !RowsReadName(p, |p.fields|)
    ensures var q := ReadRows(p).parser;
            p.rows <= q.rows && forall k :: |p.rows| <= k < |q.rows| ==> q.rows[k] == map[]
    decreases |p.unread|
  {
    hide Le, MysqlRow.DecodeCells, MysqlRow.CellsReadName;
    var u := p.unread;
    if HasRow(u) {
      var n := Le(u[..3]);
      MysqlRow.NoNameNoCell(p.fields, |p.fields|, u[4..4 + n], 0, map[]);
      var d := MysqlRow.DecodeRow(p.fields, u[4..4 + n]);
      if d.RowOk? { UnnamedReadRows(p.(rows := p.rows + [d.row], unread := u[4 + n..])); }
    }
  }

  // ---------------------------------------------- a well-formed response through the client

  function AllData(es: seq<Event>): seq<Byte> {
    if es == [] then [] else (if es[0].Data? then es[0].bytes else []) + AllData(es[1..])
  }

  /** What can go wrong, and with how many bytes parsed: a call ends there, the buffer moves there, or
      a call comes there without a new byte. */
  datatype Mark = Parse(at: nat) | Move(at: nat) | Idle(at: nat)

  function Marks(length: nat, size: nat, done: nat, acc: seq<Byte>, es: seq<Event>): seq<Mark>
    decreases |es|
  {
    if es == [] then []
    else match es[0]
         case Data(b, moves) =>
           if length + |b| == size
           then (if moves then [Move(done)] else []) + Marks(length + |b|, 2 * size, done, acc + b, es[1..])
           else [Parse(done + |acc + b|)] + Marks(length + |b|, size, done + |acc + b|, [], es[1..])
         case Block =>
           (if acc == [] then [Idle(done)] else [Parse(done + |acc|)]) + Marks(length, size, done + |acc|, [], es[1..])
  }

  /** How many columns and rows are complete within the first `c` bytes. */
  ghost function ColumnsDone(r: ResultSet, c: nat): nat
    requires r.Valid()
  {
    if c < CountSize(r) then 0 else ColumnsReach(r.columns, CountSize(r), c).count
  }

  ghost function RowsDone(r: ResultSet, c: nat): (n: nat)
    requires r.Valid()
    ensures n <= |r.rows|
  {
    if c < ColumnsEndAt(r) then 0 else RowsReach(r.rows, ColumnsEndAt(r), c).count
  }

  /** A packet ends at `c`, or nothing has been sent yet. */
  ghost predicate Boundary(r: ResultSet, c: nat)
    requires r.Valid()
  {
    if c < CountSize(r) then c == 0
    else if c < ColumnsEndAt(r) then ColumnsReach(r.columns, CountSize(r), c).at == c
    else RowsReach(r.rows, ColumnsEndAt(r), c).at == c
  }

  /** Among the rows from `lo` to `hi` one has a cell, among its first `left`, that is entered. */
  ghost predicate NamedIn(r: ResultSet, left: nat, lo: nat, hi: nat)
    requires r.Valid() && hi <= |r.rows|
  {
    exists i :: lo <= i < hi && ValidRow(r.rows[i], |r.columns|)
                && MysqlRow.NamesOneOf(DecodedAll(r.columns), left, r.rows[i])
  }

  /** With `c` bytes parsed, a row is still to come that enters a cell of the first `left` columns. */
  ghost predicate Doomed(r: ResultSet, c: nat, left: nat)
    requires r.Valid()
  {
    NamedIn(r, left, RowsDone(r, c), |r.rows|)
  }

  /** The call there leaves no column header cut, and has something to look at, or is behind the end. */
  ghost predicate GoodStop(r: ResultSet, m: Mark)
    requires r.Valid()
  {
    match m
    case Parse(c) => c < |Encode(r)| ==> !BadCut(r, c)
    case Idle(c) => c < |Encode(r)| ==> !Boundary(r, c)
    case Move(_) => true
  }

  /** The buffer moving there leaves no column behind that a row to come has a cell for to enter. */
  ghost predicate GoodMove(r: ResultSet, m: Mark)
    requires r.Valid()
  {
    m.Move? ==> !Doomed(r, m.at, ColumnsDone(r, m.at))
  }

  // ------------------------------------------------------------------ the names read

  lemma EofPrefixNoRow(w: seq<Byte>, a: nat, c: nat, j: nat, e: EofPacket)
    requires ValidEof(e) && MysqlWire.At(w, a, Packet(j, EofPayload(e))) && a <= c <= a + EOF_SIZE && c <= |w|
    ensures !HasRow(w[a..c])
  {
    hide MysqlWire.At, Packet, EofPayload, Le;
    EofPayloadLength(e);
    EofSeen(w, a, j, e);
    if a + 4 <= c { PacketSeen(w, a, c, j, EofPayload(e)); }
  }

  /** One row packet at `a`, seen up to `c`. */
  lemma RowReads(p: Parser, w: seq<Byte>, a: nat, c: nat, cells: seq<MysqlRow.Cell>, i: nat, left: nat)
    requires p.Valid() && p.fields != [] && ValidRow(cells, |p.fields|)
    requires MysqlWire.At(w, a, Packet(i, MysqlRow.WriteCells(cells)))
    requires a <= c <= |w| && p.unread == w[a..c]
    ensures var next := a + 4 + |MysqlRow.WriteCells(cells)|;
            && |Packet(i, MysqlRow.WriteCells(cells))| == 4 + |MysqlRow.WriteCells(cells)|
            && (c < next ==> !RowsReadName(p, left))
            && (next <= c ==>
                 var q := p.(rows := p.rows + [MysqlRow.RowOf(p.fields, cells, map[])], unread := w[next..c]);
                 RowsReadName(p, left) <==> MysqlRow.NamesOneOf(p.fields, left, cells) || RowsReadName(q, left))
  {
    hide MysqlRow.DecodeRow, Le, MysqlRow.WriteCells, MysqlWire.At, Packet, MysqlRow.RowOf, MysqlRow.CellsReadName;
    var payload := MysqlRow.WriteCells(cells);
    PacketLength(i, payload);
    MysqlRow.RowIsNotEof(cells);
    if a + 4 <= c {
      PacketSeen(w, a, c, i, payload);
      MysqlRow.RowRoundTrip(p.fields, cells);
      AtWhole(payload);
      MysqlRow.EncodedReadsName(p.fields, left, cells, payload, 0);
    }
  }

  /** The rows from the `n`th on, the packet of which starts at `a`, seen up to `c`. */
  lemma {:induction false} RowsRead(r: ResultSet, p: Parser, w: seq<Byte>, n: nat, a: nat, c: nat, left: nat)
    requires r.Valid() && n <= |r.rows| && p.Valid() && p.fields == DecodedAll(r.columns)
    requires RowsStand(r, w, n, a) && a <= c <= |w| && p.unread == w[a..c]
    ensures var d := RowsReach(r.rows[n..], a, c);
            n + d.count <= |r.rows| && (RowsReadName(p, left) <==> NamedIn(r, left, n, n + d.count))
    decreases |r.rows| - n
  {
    hide ResultSet.Valid, RowsReadName, MysqlRow.WriteCells, MysqlRow.RowOf, MysqlRow.NamesOneOf, DecodedAll,
      MysqlWire.At, Packet, EofPayload;
    if n == |r.rows| {
      RowsStandEnd(r, w, a);
      EofPrefixNoRow(w, a, c, 3 + |r.columns| + n, r.eof2);
      NoRowNoName(p, left);
    } else {
      RowsStandNext(r, w, n, a);
      RowReads(p, w, a, c, r.rows[n], 3 + |r.columns| + n, left);
      var next := a + 4 + |MysqlRow.WriteCells(r.rows[n])|;
      assert r.rows[n..][0] == r.rows[n] && r.rows[n..][1..] == r.rows[n + 1..];
      if next <= c {
        var q := p.(rows := p.rows + [MysqlRow.RowOf(p.fields, r.rows[n], map[])], unread := w[next..c]);
        RowsRead(r, q, w, n + 1, next, c, left);
      }
    }
  }

  lemma NoRowNoName(p: Parser, left: nat)
    requires p.Valid() && !HasRow(p.unread)
    ensures !RowsReadName(p, left)
  {
  }

  /** The packets of the rows from the `n`th on and of the last EOF stand at `a` and end with `w`. */
  ghost predicate RowsStand(r: ResultSet, w: seq<Byte>, n: nat, a: nat)
    requires n <= |r.rows|
  {
    var i := 3 + |r.columns|;
    var eof := Packet(i + |r.rows|, EofPayload(r.eof2));
    && MysqlWire.At(w, a, RowPackets(r.rows[n..], i + n) + eof)
    && |w| == a + |RowPackets(r.rows[n..], i + n)| + EOF_SIZE
  }

  lemma RowsStandEnd(r: ResultSet, w: seq<Byte>, a: nat)
    requires r.Valid() && RowsStand(r, w, |r.rows|, a)
    ensures ValidEof(r.eof2) && MysqlWire.At(w, a, Packet(3 + |r.columns| + |r.rows|, EofPayload(r.eof2)))
    ensures |w| == a + EOF_SIZE
  {
    hide MysqlWire.At, Packet, EofPayload;
    var eof := Packet(3 + |r.columns| + |r.rows|, EofPayload(r.eof2));
    assert r.rows[|r.rows|..] == [];
    assert RowPackets([], 3 + |r.columns| + |r.rows|) + eof == eof;
  }

  lemma RowsStandNext(r: ResultSet, w: seq<Byte>, n: nat, a: nat)
    requires r.Valid() && n < |r.rows| && RowsStand(r, w, n, a)
    ensures ValidRow(r.rows[n], |r.columns|) && |DecodedAll(r.columns)| == |r.columns| > 0
    ensures MysqlWire.At(w, a, Packet(3 + |r.columns| + n, MysqlRow.WriteCells(r.rows[n])))
    ensures RowsStand(r, w, n + 1, a + 4 + |MysqlRow.WriteCells(r.rows[n])|)
  {
    hide MysqlWire.At, Packet, EofPayload, MysqlRow.WriteCells;
    var i := 3 + |r.columns|;
    var eof := Packet(i + |r.rows|, EofPayload(r.eof2));
    var first, tail := Packet(i + n, MysqlRow.WriteCells(r.rows[n])), RowPackets(r.rows[n + 1..], i + n + 1);
    assert r.rows[n..][0] == r.rows[n] && r.rows[n..][1..] == r.rows[n + 1..];
    assert RowPackets(r.rows[n..], i + n) + eof == first + (tail + eof);
    PacketLength(i + n, MysqlRow.WriteCells(r.rows[n]));
    MysqlWire.AtSplit(w, a, first, tail + eof);
  }

  /** Going on from where the first `c` bytes lead. */
  lemma {:induction false} ReachOn(r: ResultSet, w: seq<Byte>, n: nat, a: nat, c: nat, c': nat)
    requires r.Valid() && n <= |r.rows| && RowsStand(r, w, n, a) && c <= c'
    ensures var d := RowsReach(r.rows[n..], a, c);
            && n + d.count <= |r.rows| && RowsStand(r, w, n + d.count, d.at)
            && RowsReach(r.rows[n..], a, c').count == d.count + RowsReach(r.rows[n + d.count..], d.at, c').count
    decreases |r.rows| - n
  {
    hide ResultSet.Valid, RowsStand, MysqlRow.WriteCells;
    if n < |r.rows| {
      RowsStandNext(r, w, n, a);
      var next := a + 4 + |MysqlRow.WriteCells(r.rows[n])|;
      assert r.rows[n..][0] == r.rows[n] && r.rows[n..][1..] == r.rows[n + 1..];
      if next <= c { ReachOn(r, w, n + 1, next, c, c'); }
    }
  }

  lemma {:induction false} AllRowsReached(rows: seq<seq<MysqlRow.Cell>>, a: nat, c: nat, i: nat)
    requires c >= a + |RowPackets(rows, i)|
    ensures RowsReach(rows, a, c).count == |rows|
    decreases |rows|
  {
    hide Packet, MysqlRow.WriteCells;
    if rows != [] {
      PacketLength(i, MysqlRow.WriteCells(rows[0]));
      AllRowsReached(rows[1..], a + 4 + |MysqlRow.WriteCells(rows[0])|, c, i + 1);
    }
  }

  lemma {:induction false} AllColumnsReached(cs: seq<MysqlField.ColumnDef>, a: nat, c: nat, i: nat)
    requires ValidColumns(cs) && c >= a + |ColumnPackets(cs, i)|
    ensures ColumnsReach(cs, a, c).count == |cs|
    decreases |cs|
  {
    hide Packet, MysqlField.EncodeField;
    if cs != [] {
      PacketLength(i, MysqlField.EncodeField(cs[0]));
      AllColumnsReached(cs[1..], a + 4 + |MysqlField.EncodeField(cs[0])|, c, i + 1);
    }
  }

  lemma {:induction false} ColumnsReachGrows(cs: seq<MysqlField.ColumnDef>, a: nat, c: nat, c': nat)
    requires ValidColumns(cs) && c <= c'
    ensures ColumnsReach(cs, a, c).count <= ColumnsReach(cs, a, c').count
    decreases |cs|
  {
    hide MysqlField.EncodeField;
    if cs != [] && c >= a + 4 + |MysqlField.EncodeField(cs[0])| {
      ColumnsReachGrows(cs[1..], a + 4 + |MysqlField.EncodeField(cs[0])|, c, c');
    }
  }

  // ------------------------------------------------------------------ the calls

  lemma CountPhase(p: Parser, q: Parser, w: seq<Byte>, c: nat, n: nat)
    requires 0 < n < MysqlWire.TWO16 && MysqlWire.At(w, 0, Packet(1, MysqlWire.WriteLcb(n))) && c <= |w|
    requires p == Initial().More(w[..c])
    requires 4 + |MysqlWire.WriteLcb(n)| <= c ==>
               && q.Valid()
               && q == Initial().(state := ReadField, numColumn := n, unread := w[4 + |MysqlWire.WriteLcb(n)|..c])
    ensures RowPhase(p) == if 4 + |MysqlWire.WriteLcb(n)| <= c && c > 5 then AfterColumns(q) else None
  {
    hide ReadHead, AfterColumns, MysqlWire.At, Packet, MysqlWire.WriteLcb;
    assert p.unread == w[..c];
    HeadSeen(p, w, c, n);
  }

  /** How far a call on the first `c` bytes comes. */
  lemma PhaseSeen(r: ResultSet, c: nat)
    requires r.Valid() && c <= |Encode(r)|
    ensures RowPhase(Initial().More(Encode(r)[..c])) ==
            if c < ColumnsEndAt(r) then None else Some(AtRows(r, 0, Encode(r)[ColumnsEndAt(r)..c]))
  {
    hide ResultSet.Valid, RowPhase, ReadColumns, ResponseColumns, Encode, MysqlWire.At, Packet, MysqlWire.WriteLcb,
      ColumnsEndAt, BadCut, Waiting, DecodedAll;
    CountAt(r);
    PartsInOrder(r);
    if c >= CountSize(r) {
      if c < ColumnsEndAt(r) { WithinColumns(r, c); } else { ColumnsComplete(r, c); }
    }
    var q := if c >= CountSize(r) then AfterCount(r, c) else Initial();
    CountPhase(Initial().More(Encode(r)[..c]), q, Encode(r), c, |r.columns|);
    if c >= ColumnsEndAt(r) { NoRowsYet(r); }
  }

  lemma NoRowsYet(r: ResultSet)
    requires r.Valid()
    ensures AtRows(r, 0, []).rows == []
  {
    assert r.rows[..0] == [];
  }

  /** A place where the parser waits. */
  ghost predicate Stop(r: ResultSet, c: nat)
    requires r.Valid()
  {
    c == 0 || (c < |Encode(r)| && !BadCut(r, c))
  }

  lemma WaitingAtStart(r: ResultSet)
    requires r.Valid()
    ensures Waiting(r, 0) == Initial() && Initial().More([]) == Initial()
  {
    PartsInOrder(r);
    hide Encode;
    assert Encode(r)[..0] == [];
  }

  lemma WaitingHas(r: ResultSet, c: nat)
    requires r.Valid() && c <= |Encode(r)|
    ensures var p := Waiting(r, c);
            && |p.fields| == ColumnsDone(r, c) && (p.unread == [] <==> Boundary(r, c)) && p.state != ReadEnd
            && (c < ColumnsEndAt(r) ==> RowsDone(r, c) == 0)
            && (c >= ColumnsEndAt(r) ==>
                 p == AtRows(r, RowsDone(r, c), Encode(r)[RowsReach(r.rows, ColumnsEndAt(r), c).at..c]))
  {
    PartsInOrder(r);
    hide Encode, RowPackets, Packet, EofPayload;
    if c >= ColumnsEndAt(r) { AllColumnsReached(r.columns, CountSize(r), c, 2); }
  }

  /** The bytes of the response from `c` on, for as long as `piece`. */
  ghost predicate Stands(r: ResultSet, c: nat, piece: seq<Byte>)
    requires r.Valid()
  {
    c + |piece| <= |Encode(r)| && piece == Encode(r)[c..c + |piece|]
  }

  lemma StandsWith(r: ResultSet, c: nat, piece: seq<Byte>)
    requires r.Valid() && Stands(r, c, piece)
    ensures Encode(r)[..c] + piece == Encode(r)[..c + |piece|]
    ensures forall a :: 0 <= a <= c ==> Encode(r)[a..c] + piece == Encode(r)[a..c + |piece|]
  {
    hide Encode, ResultSet.Valid;
  }

  lemma ResumeFrom(u: seq<Byte>, v: seq<Byte>)
    requires v != [] && Waits(Initial(), u)
    ensures Response(Response(Initial().More(u)).parser.More(v)) == Response(Initial().More(u + v))
  {
    hide Response;
    MoreMore(Initial(), u, v);
    ResumeWithColumns(Initial().More(u), v);
  }

  /** Parsing the next piece gives what parsing everything up to its end gives. */
  lemma NextCall(r: ResultSet, c: nat, piece: seq<Byte>)
    requires r.Valid() && Stop(r, c) && piece != [] && Stands(r, c, piece)
    ensures Response(Waiting(r, c).More(piece)) == Response(Initial().More(Encode(r)[..c + |piece|]))
  {
    hide ResultSet.Valid, Response, Encode, BadCut, Final, Waits, Waiting;
    StandsWith(r, c, piece);
    if c > 0 {
      ResponseSeen(r, c);
      ResumeFrom(Encode(r)[..c], piece);
    } else {
      WaitingAtStart(r);
    }
  }

  /** How far the call on the next piece comes, in the columns or before them. */
  lemma NextPhase(r: ResultSet, c: nat, piece: seq<Byte>)
    requires r.Valid() && Stop(r, c) && Stands(r, c, piece) && c < ColumnsEndAt(r)
    ensures RowPhase(Waiting(r, c).More(piece)) == RowPhase(Initial().More(Encode(r)[..c + |piece|]))
  {
    hide ResultSet.Valid, Response, Encode, BadCut, Final, Waits, Waiting, RowPhase, ColumnsEndAt;
    StandsWith(r, c, piece);
    if c > 0 {
      ResponseSeen(r, c);
      PhaseSeen(r, c);
      MoreMore(Initial(), Encode(r)[..c], piece);
      PhaseResume(Initial().More(Encode(r)[..c]), piece);
    } else {
      WaitingAtStart(r);
    }
  }

  lemma FromTheRows(r: ResultSet)
    requires r.Valid()
    ensures RowsStand(r, Encode(r), 0, ColumnsEndAt(r))
  {
    hide Encode, MysqlWire.At, Packet, EofPayload, RowPackets, ColumnsEndAt, ResultSet.Valid;
    assert r.rows[0..] == r.rows;
    RowsAt(r);
  }

  lemma NameReadBefore(r: ResultSet, c: nat, piece: seq<Byte>, left: nat)
    requires r.Valid() && Stop(r, c) && Stands(r, c, piece) && c < ColumnsEndAt(r)
    ensures ReadsName(Waiting(r, c).More(piece), left) <==> NamedIn(r, left, 0, RowsDone(r, c + |piece|))
  {
    hide ResultSet.Valid, Encode, BadCut, Waiting, RowPhase, ColumnsEndAt, RowsReadName, NamedIn, RowsStand, RowsReach;
    var w, b, c' := Encode(r), ColumnsEndAt(r), c + |piece|;
    FromTheRows(r);
    assert r.rows[0..] == r.rows;
    NextPhase(r, c, piece);
    PhaseSeen(r, c');
    if c' < b { NoneNamed(r, left, 0); } else { RowsRead(r, AtRows(r, 0, w[b..c']), w, 0, b, c', left); }
  }

  lemma NameReadBehind(r: ResultSet, c: nat, piece: seq<Byte>, left: nat)
    requires r.Valid() && Stop(r, c) && Stands(r, c, piece) && c >= ColumnsEndAt(r)
    ensures RowsDone(r, c) <= RowsDone(r, c + |piece|)
    ensures ReadsName(Waiting(r, c).More(piece), left) <==> NamedIn(r, left, RowsDone(r, c), RowsDone(r, c + |piece|))
  {
    hide ResultSet.Valid, Encode, BadCut, Waiting, RowPhase, ReadsName, ColumnsEndAt, RowsReadName, NamedIn, RowsStand,
      RowsReach, DecodedAll;
    var w, b, c' := Encode(r), ColumnsEndAt(r), c + |piece|;
    FromTheRows(r);
    WaitingHas(r, c);
    assert r.rows[0..] == r.rows;
    ReachOn(r, w, 0, b, c, c');
    var d := RowsReach(r.rows, b, c);
    StandsWith(r, c, piece);
    var q := AtRows(r, d.count, w[d.at..c']);
    RowsRead(r, q, w, d.count, d.at, c', left);
    PhaseAtRows(q, left);
  }

  /** The names the call on the next piece reads: those of the rows it completes. */
  lemma NameRead(r: ResultSet, c: nat, piece: seq<Byte>, left: nat)
    requires r.Valid() && Stop(r, c) && Stands(r, c, piece)
    ensures RowsDone(r, c) <= RowsDone(r, c + |piece|)
    ensures ReadsName(Waiting(r, c).More(piece), left) <==> NamedIn(r, left, RowsDone(r, c), RowsDone(r, c + |piece|))
  {
    hide ResultSet.Valid, Encode, BadCut, Waiting, ReadsName, ColumnsEndAt, NamedIn;
    if c < ColumnsEndAt(r) { NameReadBefore(r, c, piece, left); } else { NameReadBehind(r, c, piece, left); }
  }

  lemma NoneNamed(r: ResultSet, left: nat, n: nat)
    requires r.Valid() && n <= |r.rows|
    ensures !NamedIn(r, left, n, n)
  {
  }

  lemma PhaseAtRows(q: Parser, left: nat)
    requires q.Valid() && q.state == ReadRow
    ensures ReadsName(q, left) <==> RowsReadName(q, left)
  {
  }

  // ------------------------------------------------------------- how it ends

  ghost predicate Yields(r: ResultSet, t: Link)
    requires r.Valid()
  {
    t.outcome == Finished && t.p == Final(r)
  }

  /** What becomes of a client that has parsed `c` bytes and left `left` columns behind, `t` being
      its end: stops that are bad keep it from its result; otherwise it has exactly its result, or
      reads a stale name, which it does only if a row to come or a later move makes it. */
  ghost predicate Fate(r: ResultSet, c: nat, left: nat, marks: seq<Mark>, t: Link)
    requires r.Valid()
  {
    var stops, moves := forall m <- marks :: GoodStop(r, m), forall m <- marks :: GoodMove(r, m);
    && (stops ==> if !Doomed(r, c, left) && moves then Yields(r, t) else t.outcome == Dangling)
    && (!stops ==> !Yields(r, t))
    && (t.outcome == Dangling ==> Doomed(r, c, left) || !moves)
  }

  lemma DoomedMore(r: ResultSet, c: nat, left: nat, more: nat)
    requires r.Valid() && Doomed(r, c, left) && left <= more
    ensures Doomed(r, c, more)
  {
    hide MysqlRow.NamesOneOf, DecodedAll;
    var i :| RowsDone(r, c) <= i < |r.rows| && ValidRow(r.rows[i], |r.columns|)
             && MysqlRow.NamesOneOf(DecodedAll(r.columns), left, r.rows[i]);
    MysqlRow.NamesMore(DecodedAll(r.columns), left, more, r.rows[i]);
  }

  lemma DoomedSplit(r: ResultSet, c: nat, c': nat, left: nat)
    requires r.Valid() && RowsDone(r, c) <= RowsDone(r, c')
    ensures Doomed(r, c, left) <==> NamedIn(r, left, RowsDone(r, c), RowsDone(r, c')) || Doomed(r, c', left)
  {
    hide MysqlRow.NamesOneOf, DecodedAll, RowsDone;
  }

  lemma FateMoved(r: ResultSet, c: nat, left: nat, rest: seq<Mark>, t: Link)
    requires r.Valid() && left <= ColumnsDone(r, c) && Fate(r, c, ColumnsDone(r, c), rest, t)
    ensures Fate(r, c, left, [Move(c)] + rest, t)
  {
    hide Doomed, ResultSet.Valid, ColumnsDone, Yields, BadCut, Boundary, Encode;
    var marks := [Move(c)] + rest;
    assert forall m :: m in marks <==> m == Move(c) || m in rest;
    if Doomed(r, c, left) { DoomedMore(r, c, left, ColumnsDone(r, c)); }
    assert GoodMove(r, Move(c)) <==> !Doomed(r, c, ColumnsDone(r, c));
    assert (forall m <- marks :: GoodMove(r, m)) <==> GoodMove(r, Move(c)) && forall m <- rest :: GoodMove(r, m);
    assert (forall m <- marks :: GoodStop(r, m)) <==> forall m <- rest :: GoodStop(r, m);
  }

  lemma FateOn(r: ResultSet, c: nat, c': nat, left: nat, m: Mark, rest: seq<Mark>, t: Link)
    requires r.Valid() && !m.Move? && GoodStop(r, m) && Fate(r, c', left, rest, t)
    requires Doomed(r, c, left) <==> Doomed(r, c', left)
    ensures Fate(r, c, left, [m] + rest, t)
  {
    hide Doomed, ResultSet.Valid, ColumnsDone, Yields, BadCut, Boundary, Encode;
    var marks := [m] + rest;
    assert forall x :: x in marks <==> x == m || x in rest;
    assert GoodMove(r, m);
    assert (forall x <- marks :: GoodMove(r, x)) <==> forall x <- rest :: GoodMove(r, x);
    assert (forall x <- marks :: GoodStop(r, x)) <==> forall x <- rest :: GoodStop(r, x);
  }

  lemma FateBad(r: ResultSet, c: nat, left: nat, m: Mark, rest: seq<Mark>, t: Link)
    requires r.Valid() && !GoodStop(r, m) && !Yields(r, t) && t.outcome != Dangling
    ensures Fate(r, c, left, [m] + rest, t)
  {
    hide Doomed, ResultSet.Valid, ColumnsDone, Yields, GoodStop, GoodMove;
    assert m in [m] + rest;
  }

  lemma FateDangling(r: ResultSet, c: nat, left: nat, marks: seq<Mark>, t: Link)
    requires r.Valid() && Doomed(r, c, left) && t.outcome == Dangling
    ensures Fate(r, c, left, marks, t)
  {
    hide Doomed, ResultSet.Valid, GoodStop, GoodMove;
  }

  /** Without data only empty calls come. */
  lemma {:induction false} OnlyIdle(length: nat, size: nat, c: nat, es: seq<Event>)
    requires AllData(es) == [] && Feasible(length, size, es)
    ensures forall m <- Marks(length, size, c, [], es) :: m == Idle(c)
    decreases |es|
  {
    if es != [] {
      assert es[0].Block?;
      OnlyIdle(length, size, c, es[1..]);
    }
  }

  lemma FateEnds(r: ResultSet, left: nat, marks: seq<Mark>, t: Link)
    requires r.Valid() && Yields(r, t) && forall m <- marks :: m == Idle(|Encode(r)|)
    ensures Fate(r, |Encode(r)|, left, marks, t)
  {
    var c := |Encode(r)|;
    PartsAt(r);
    PartsInOrder(r);
    AllRowsReached(r.rows, ColumnsEndAt(r), c, 3 + |r.columns|);
    hide ResultSet.Valid, ColumnsDone, Yields, BadCut, Boundary, Encode;
    NoneNamed(r, left, |r.rows|);
    assert forall m <- marks :: GoodStop(r, m) && GoodMove(r, m);
  }

  /** What is still to come: with `c` bytes parsed and `acc` stored, the events hold the rest of the
      response, and all of it is parsed. */
  ghost predicate Coming(r: ResultSet, length: nat, size: nat, c: nat, acc: seq<Byte>, es: seq<Event>)
    requires r.Valid()
  {
    && c <= |Encode(r)| && Encode(r)[c..] == acc + AllData(es)
    && Feasible(length, size, es) && Remainder(length, size, acc, es) == []
  }

  /** The client between two events. */
  ghost predicate Underway(r: ResultSet, l: Link, c: nat, acc: seq<Byte>, es: seq<Event>)
    requires r.Valid()
  {
    && Coming(r, l.length, l.size, c, acc, es) && Stop(r, c) && l.outcome == Again
    && l.p == Waiting(r, c).More(acc) && l.left <= ColumnsDone(r, c)
  }

  /** The piece that is parsed at an event that does not fill the buffer. */
  function PieceAt(acc: seq<Byte>, e: Event): seq<Byte> {
    match e
    case Data(b, _) => acc + b
    case Block => acc
  }

  function LengthAfter(length: nat, e: Event): nat {
    if e.Data? then length + |e.bytes| else length
  }

  lemma CutOff(w: seq<Byte>, c: nat, piece: seq<Byte>, rest: seq<Byte>)
    requires c <= |w| && w[c..] == piece + rest
    ensures c + |piece| <= |w| && piece == w[c..c + |piece|] && w[c + |piece|..] == rest
  {
    assert w[c..][..|piece|] == piece && w[c..][|piece|..] == rest;
    SliceOfSuffix(w, c, c, c + |piece|);
    SliceOfSuffix(w, c, c + |piece|, |w|);
  }

  lemma EventData(acc: seq<Byte>, es: seq<Event>)
    requires es != []
    ensures acc + AllData(es) == PieceAt(acc, es[0]) + AllData(es[1..])
  {
    var b := if es[0].Data? then es[0].bytes else [];
    assert AllData(es) == b + AllData(es[1..]);
    assert PieceAt(acc, es[0]) == acc + b;
    hide AllData, PieceAt;
    Assoc(acc, b, AllData(es[1..]));
  }

  /** The functions of the events, one event further. */
  lemma EventStep(length: nat, size: nat, c: nat, acc: seq<Byte>, es: seq<Event>)
    requires es != [] && (es[0].Data? ==> length + |es[0].bytes| != size)
    ensures var next, piece := LengthAfter(length, es[0]), PieceAt(acc, es[0]);
            && (Feasible(length, size, es) ==> Feasible(next, size, es[1..]) && (es[0].Data? ==> piece != []))
            && Remainder(next, size, [], es[1..]) == Remainder(length, size, acc, es)
            && Marks(length, size, c, acc, es) ==
               [if piece == [] && es[0].Block? then Idle(c) else Parse(c + |piece|)]
                 + Marks(next, size, c + |piece|, [], es[1..])
  {
    hide AllData;
  }

  /** The piece that is parsed next stands behind what has been parsed. */
  lemma NextPiece(r: ResultSet, length: nat, size: nat, c: nat, acc: seq<Byte>, es: seq<Event>)
    requires r.Valid() && Coming(r, length, size, c, acc, es) && es != []
    requires es[0].Data? ==> length + |es[0].bytes| != size
    ensures var piece := PieceAt(acc, es[0]);
            Stands(r, c, piece) && Coming(r, LengthAfter(length, es[0]), size, c + |piece|, [], es[1..])
  {
    hide ResultSet.Valid, Encode, Feasible, Remainder, Marks, AllData, LengthAfter, PieceAt;
    EventStep(length, size, c, acc, es);
    EventData(acc, es);
    CutOff(Encode(r), c, PieceAt(acc, es[0]), AllData(es[1..]));
    assert [] + AllData(es[1..]) == AllData(es[1..]);
  }

  /** The call on the next piece, if it reads no stale name. */
  lemma CallOn(r: ResultSet, c: nat, piece: seq<Byte>)
    requires r.Valid() && Stop(r, c) && Stands(r, c, piece) && piece != []
    ensures var got, c' := Response(Waiting(r, c).More(piece)), c + |piece|;
            && (c' == |Encode(r)| ==> got == Result(Finished, Final(r)))
            && (c' < |Encode(r)| && !BadCut(r, c') ==> got == Result(Again, Waiting(r, c')))
            && (c' < |Encode(r)| && BadCut(r, c') ==> Strands(got))
  {
    hide ResultSet.Valid, Response, Encode, BadCut, Waits, Waiting;
    NextCall(r, c, piece);
    ResponseSeen(r, c + |piece|);
  }

  lemma EncodeNonEmpty(r: ResultSet)
    requires r.Valid()
    ensures Encode(r) != []
  {
    hide Encode, MysqlWire.At, Packet, EofPayload, RowPackets, ColumnPackets;
    PartsAt(r);
  }

  lemma UnderwayNext(r: ResultSet, l: Link, c: nat, acc: seq<Byte>, es: seq<Event>)
    requires r.Valid() && Underway(r, l, c, acc, es)
    ensures es != [] && c < |Encode(r)| && Stop(r, c) && l.outcome == Again
    ensures l.p == Waiting(r, c).More(acc) && l.left <= ColumnsDone(r, c) && Coming(r, l.length, l.size, c, acc, es)
  {
    EncodeNonEmpty(r);
    hide ResultSet.Valid, Encode, BadCut, Waiting;
  }

  lemma PieceOfData(acc: seq<Byte>, e: Event)
    requires e.Data?
    ensures PieceAt(acc, e) == acc + e.bytes
  {
  }

  /** A delivery that fills the buffer. */
  lemma UnderwayFull(r: ResultSet, l: Link, c: nat, acc: seq<Byte>, es: seq<Event>)
    requires r.Valid() && Underway(r, l, c, acc, es) && es != [] && es[0].Data? && l.length + |es[0].bytes| == l.size
    ensures var t, b := Deliver(l, es[0]), es[0].bytes;
            && Underway(r, t, c, acc + b, es[1..])
            && t.left == (if es[0].moves then ColumnsDone(r, c) else l.left)
            && Marks(l.length, l.size, c, acc, es) ==
               (if es[0].moves then [Move(c)] else []) + Marks(t.length, t.size, c, acc + b, es[1..])
  {
    hide ResultSet.Valid, Encode, BadCut, Response, ReadsName, Waiting, ColumnsDone, RowsDone, Boundary, AtRows,
      ColumnsEndAt, PieceAt;
    WaitingHas(r, c);
    EventData(acc, es);
    assert PieceAt(acc, es[0]) == acc + es[0].bytes by { PieceOfData(acc, es[0]); }
    MoreMore(Waiting(r, c), acc, es[0].bytes);
  }

  lemma ParseNext(l: Link, p: Parser, acc: seq<Byte>, e: Event)
    requires p.Valid() && l.p == p.More(acc) && l.outcome == Again && (e.Data? ==> l.length + |e.bytes| != l.size)
    ensures var t, q := Deliver(l, e), p.More(PieceAt(acc, e));
            && t.length == LengthAfter(l.length, e) && t.size == l.size && t.left == l.left
            && (if ReadsName(q, l.left) then t.outcome == Dangling
                else t.p == Response(q).parser && t.outcome == Response(q).outcome)
  {
    hide Response, ReadsName;
    if e.Data? { MoreMore(p, acc, e.bytes); }
  }

  /** An event at which a piece is parsed, and how it goes on from there. */
  lemma PieceFate(r: ResultSet, l: Link, c: nat, piece: seq<Byte>, t: Link, end: Link, rest: seq<Mark>)
    requires r.Valid() && Stop(r, c) && Stands(r, c, piece) && piece != []
    requires var q := Waiting(r, c).More(piece);
             if ReadsName(q, l.left) then t.outcome == Dangling
             else t.p == Response(q).parser && t.outcome == Response(q).outcome
    requires t.outcome != Again ==> end == t
    requires c + |piece| == |Encode(r)| ==> forall m <- rest :: m == Idle(|Encode(r)|)
    requires c + |piece| < |Encode(r)| && !BadCut(r, c + |piece|) && t.outcome == Again ==>
             Fate(r, c + |piece|, l.left, rest, end)
    ensures Fate(r, c, l.left, [Parse(c + |piece|)] + rest, end)
  {
    hide ResultSet.Valid, Encode, BadCut, Waiting, Response, ReadsName, Fate, RowsDone, NamedIn, Doomed, Final;
    var c' := c + |piece|;
    NameRead(r, c, piece, l.left);
    DoomedSplit(r, c, c', l.left);
    CallOn(r, c, piece);
    if t.outcome == Dangling {
      FateDangling(r, c, l.left, [Parse(c')] + rest, end);
    } else if c' == |Encode(r)| {
      FateEnds(r, l.left, rest, end);
      FateOn(r, c, c', l.left, Parse(c'), rest, end);
    } else if BadCut(r, c') {
      NotFinal(r, end);
      FateBad(r, c, l.left, Parse(c'), rest, end);
    } else {
      FateOn(r, c, c', l.left, Parse(c'), rest, end);
    }
  }

  lemma NotFinal(r: ResultSet, t: Link)
    requires r.Valid() && (t.outcome == OverRead || (t.outcome == Finished && t.p.state != ReadEnd))
    ensures !Yields(r, t)
  {
  }

  /** A call without a new byte: at the end of a packet it reports success, and otherwise nothing
      happens. */
  lemma IdleCall(r: ResultSet, c: nat, left: nat)
    requires r.Valid() && Stop(r, c)
    ensures !ReadsName(Waiting(r, c), left)
    ensures Response(Waiting(r, c)) == Result(if Boundary(r, c) then Finished else Again, Waiting(r, c))
  {
    hide ResultSet.Valid, Encode, BadCut, Waiting, Response, ReadsName, RowsDone, ColumnsDone, Boundary, NamedIn,
      AtRows, ColumnsEndAt, Waits, Final;
    EncodeNonEmpty(r);
    assert Encode(r)[c..c] == [];
    NameRead(r, c, [], left);
    NoneNamed(r, left, RowsDone(r, c));
    MoreMore(Waiting(r, c), [], []);
    WaitingHas(r, c);
    if c > 0 {
      ResponseSeen(r, c);
      RepeatedCall(Initial().More(Encode(r)[..c]));
    } else {
      WaitingAtStart(r);
      NothingToRead();
    }
  }

  lemma NothingToRead()
    ensures Response(Initial()) == Result(Finished, Initial()) && Initial().unread == []
  {
  }

  lemma ColumnsDoneGrows(r: ResultSet, c: nat, c': nat)
    requires r.Valid() && c <= c'
    ensures ColumnsDone(r, c) <= ColumnsDone(r, c')
  {
    ColumnsReachGrows(r.columns, CountSize(r), c, c');
  }

  /** Where a call that asks for more leaves the parser. */
  lemma AskedForMore(r: ResultSet, c: nat, piece: seq<Byte>)
    requires r.Valid() && Stop(r, c) && c < |Encode(r)| && Stands(r, c, piece)
    requires Response(Waiting(r, c).More(piece)).outcome == Again
    ensures Stop(r, c + |piece|) && c + |piece| < |Encode(r)|
    ensures Response(Waiting(r, c).More(piece)).parser == Waiting(r, c + |piece|).More([])
  {
    hide ResultSet.Valid, Encode, Stop, Stands, Waiting, Response;
    if piece == [] {
      AskedAgain(r, c);
    } else {
      AskedOn(r, c, piece);
    }
  }

  lemma AskedAgain(r: ResultSet, c: nat)
    requires r.Valid() && Stop(r, c) && c < |Encode(r)| && Response(Waiting(r, c).More([])).outcome == Again
    ensures Response(Waiting(r, c).More([])).parser == Waiting(r, c).More([])
  {
    hide ResultSet.Valid, Encode, Stop, Waiting, Response, Boundary, ReadsName;
    MoreMore(Waiting(r, c), [], []);
    IdleCall(r, c, 0);
  }

  lemma AskedOn(r: ResultSet, c: nat, piece: seq<Byte>)
    requires r.Valid() && Stop(r, c) && Stands(r, c, piece) && piece != []
    requires Response(Waiting(r, c).More(piece)).outcome == Again
    ensures Stop(r, c + |piece|) && c + |piece| < |Encode(r)|
    ensures Response(Waiting(r, c).More(piece)).parser == Waiting(r, c + |piece|).More([])
  {
    hide ResultSet.Valid, Encode, BadCut, Waiting, Response, Final;
    CallOn(r, c, piece);
    MoreMore(Waiting(r, c + |piece|), [], []);
  }

  lemma UnderwayOn(r: ResultSet, l: Link, c: nat, piece: seq<Byte>, t: Link, es: seq<Event>)
    requires r.Valid() && Stop(r, c) && c < |Encode(r)| && Stands(r, c, piece) && l.left <= ColumnsDone(r, c)
    requires Coming(r, t.length, t.size, c + |piece|, [], es) && t.outcome == Again && t.left == l.left
    requires t.p == Response(Waiting(r, c).More(piece)).parser && Response(Waiting(r, c).More(piece)).outcome == Again
    ensures Underway(r, t, c + |piece|, [], es)
  {
    hide ResultSet.Valid, Encode, Stop, Stands, Waiting, Response, ColumnsDone, Coming;
    ColumnsDoneGrows(r, c, c + |piece|);
    AskedForMore(r, c, piece);
  }

  /** An event at which a call is made without a new byte. */
  lemma IdleFate(r: ResultSet, l: Link, c: nat, t: Link, end: Link, rest: seq<Mark>)
    requires r.Valid() && Stop(r, c) && c < |Encode(r)|
    requires var q := Waiting(r, c).More([]);
             if ReadsName(q, l.left) then t.outcome == Dangling
             else t.p == Response(q).parser && t.outcome == Response(q).outcome
    requires t.outcome != Again ==> end == t
    requires t.outcome == Again ==> Fate(r, c, l.left, rest, end)
    ensures Fate(r, c, l.left, [Idle(c)] + rest, end)
  {
    hide ResultSet.Valid, Encode, BadCut, Waiting, Response, ReadsName, Fate, Doomed, Final, Boundary;
    IdleCall(r, c, l.left);
    MoreMore(Waiting(r, c), [], []);
    if Boundary(r, c) {
      WaitingHas(r, c);
      NotFinal(r, end);
      FateBad(r, c, l.left, Idle(c), rest, end);
    } else {
      FateOn(r, c, c, l.left, Idle(c), rest, end);
    }
  }

  lemma IdleBehindEnd(r: ResultSet, length: nat, size: nat, c: nat, es: seq<Event>)
    requires r.Valid() && Coming(r, length, size, c, [], es) && c == |Encode(r)|
    ensures forall m <- Marks(length, size, c, [], es) :: m == Idle(c)
  {
    hide ResultSet.Valid, Encode;
    assert [] + AllData(es) == AllData(es);
    OnlyIdle(length, size, c, es);
  }

  /** Every well-formed response, in any deliveries with calls in between, through a buffer of any size
      that moves at any time. */
  lemma {:induction false} ClientFate(r: ResultSet, l: Link, c: nat, acc: seq<Byte>, es: seq<Event>)
    requires r.Valid() && Underway(r, l, c, acc, es)
    ensures Fate(r, c, l.left, Marks(l.length, l.size, c, acc, es), Feed(l, es))
    decreases |es|
  {
    hide ResultSet.Valid, Encode, BadCut, Waiting, Deliver, Response, ReadsName, Fate, Underway, Coming, Doomed,
      ColumnsDone, Boundary, PieceAt, LengthAfter, Stands, Stop, Marks;
    UnderwayNext(r, l, c, acc, es);
    var t, end := Deliver(l, es[0]), Feed(l, es);
    if es[0].Data? && l.length + |es[0].bytes| == l.size {
      UnderwayFull(r, l, c, acc, es);
      var rest := Marks(t.length, t.size, c, acc + es[0].bytes, es[1..]);
      ClientFate(r, t, c, acc + es[0].bytes, es[1..]);
      if es[0].moves { FateMoved(r, c, l.left, rest, end); } else { assert [] + rest == rest; }
    } else {
      var piece := PieceAt(acc, es[0]);
      NextPiece(r, l.length, l.size, c, acc, es);
      ParseNext(l, Waiting(r, c), acc, es[0]);
      EventStep(l.length, l.size, c, acc, es);
      var rest := Marks(t.length, t.size, c + |piece|, [], es[1..]);
      if t.outcome == Again {
        UnderwayOn(r, l, c, piece, t, es[1..]);
        ClientFate(r, t, c + |piece|, [], es[1..]);
      } else {
        Ended(t, es[1..]);
      }
      if piece == [] {
        ComingFits(r, l.length, l.size, c, acc, es);
        IdleFate(r, l, c, t, end, rest);
      } else {
        if c + |piece| == |Encode(r)| { IdleBehindEnd(r, t.length, t.size, c + |piece|, es[1..]); }
        PieceFate(r, l, c, piece, t, end, rest);
      }
    }
  }

  lemma ComingFits(r: ResultSet, length: nat, size: nat, c: nat, acc: seq<Byte>, es: seq<Event>)
    requires r.Valid() && Coming(r, length, size, c, acc, es)
    ensures Feasible(length, size, es)
  {
  }

  /** A well-formed response in any deliveries, through a buffer of any size: the client ends with
      exactly its columns and rows, if and only if no call ends inside or right before a column
      packet's header, no call without a new byte comes at the end of a packet, and whenever the
      buffer moves, no row to come has a cell to enter for a column that is complete. */
  lemma ClientYields(r: ResultSet, size: nat, es: seq<Event>)
    requires r.Valid() && Feasible(0, size, es) && AllData(es) == Encode(r) && Remainder(0, size, [], es) == []
    ensures Yields(r, Feed(Start(size), es)) <==>
            forall m <- Marks(0, size, 0, [], es) :: GoodStop(r, m) && GoodMove(r, m)
  {
    Began(r, size, es);
    hide ResultSet.Valid, Underway, Doomed, GoodStop, GoodMove, Feed, Marks, Yields;
    ClientFate(r, Start(size), 0, [], es);
    NotDoomed(r, 0);
  }

  /** If a move leaves a column behind that a row to come enters a cell for, the client reads its
      name; and only then. */
  lemma HarmIsDone(r: ResultSet, size: nat, es: seq<Event>)
    requires r.Valid() && Feasible(0, size, es) && AllData(es) == Encode(r) && Remainder(0, size, [], es) == []
    ensures Feed(Start(size), es).outcome == Dangling ==> exists m <- Marks(0, size, 0, [], es) :: !GoodMove(r, m)
    ensures && (forall m <- Marks(0, size, 0, [], es) :: GoodStop(r, m))
            && (exists m <- Marks(0, size, 0, [], es) :: !GoodMove(r, m)) ==>
              Feed(Start(size), es).outcome == Dangling
  {
    Began(r, size, es);
    hide ResultSet.Valid, Underway, Doomed, GoodStop, GoodMove, Feed, Marks, Yields;
    ClientFate(r, Start(size), 0, [], es);
    NotDoomed(r, 0);
  }

  lemma Began(r: ResultSet, size: nat, es: seq<Event>)
    requires r.Valid() && Feasible(0, size, es) && AllData(es) == Encode(r) && Remainder(0, size, [], es) == []
    ensures Underway(r, Start(size), 0, [], es)
  {
    WaitingAtStart(r);
    hide ResultSet.Valid, Encode, BadCut, Waiting, Feasible, Remainder, AllData;
    assert Encode(r)[0..] == Encode(r) == [] + AllData(es);
  }

  lemma NotDoomed(r: ResultSet, c: nat)
    requires r.Valid()
    ensures !Doomed(r, c, 0)
  {
  }

  // ------------------------------------------------------------- the failing inputs

  /** What is complete with the columns and their EOF packet. */
  lemma BehindColumns(r: ResultSet)
    requires r.Valid()
    ensures var k := ColumnsEndAt(r);
            && 0 < k < |Encode(r)| && !BadCut(r, k) && RowsDone(r, k) == 0 && ColumnsDone(r, k) == |r.columns|
            && Waiting(r, k) == AtRows(r, 0, [])
  {
    PartsInOrder(r);
    PartsAt(r);
    var k := ColumnsEndAt(r);
    ColumnsComplete(r, k);
    AllColumnsReached(r.columns, CountSize(r), k, 2);
    hide ResultSet.Valid, Encode, BadCut, ColumnsEndAt, CountSize, ColumnsReach, AtRows;
    assert Encode(r)[k..k] == [];
  }

  lemma ThreeEvents(a: seq<Byte>, b: seq<Byte>)
    requires a != [] && b != []
    ensures var es, size := [Data(a, false), Data(b, true), Block], |a| + |b|;
            && Feasible(0, size, es) && AllData(es) == a + b && Remainder(0, size, [], es) == []
            && Marks(0, size, 0, [], es) == [Parse(|a|), Move(|a|), Parse(size)]
  {
    var e1, e2, e3, size := Data(a, false), Data(b, true), Block, |a| + |b|;
    var es2, es3 := [e2, e3], [e3];
    assert [e1, e2, e3][1..] == es2 && es2[1..] == es3 && es3[1..] == [];
    assert [] + a == a && [] + b == b;
    assert Marks(size, 2 * size, |a|, b, es3) == [Parse(size)] + Marks(size, 2 * size, size, [], []);
    assert Marks(|a|, size, |a|, [], es2) == [Move(|a|)] + [Parse(size)];
    assert Feasible(size, 2 * size, es3) && Feasible(|a|, size, es2);
    assert AllData(es3) == [] && AllData(es2) == b + [] && Remainder(size, 2 * size, b, es3) == [];
    assert Remainder(|a|, size, [], es2) == [];
  }

  /** The columns in a first delivery, and rows that fill the buffer, which then moves: no stop is
      bad, and the client reads a stale name, if and only if some row has a cell to enter. */
  lemma MovedBufferLosesNames(r: ResultSet)
    requires r.Valid()
    ensures var w, k := Encode(r), ColumnsEndAt(r);
            && k < |w|
            && var es := [Data(w[..k], false), Data(w[k..], true), Block];
               var t := Feed(Start(|w|), es);
               && Feasible(0, |w|, es) && (forall m <- Marks(0, |w|, 0, [], es) :: GoodStop(r, m))
               && (if NamedIn(r, |r.columns|, 0, |r.rows|) then t.outcome == Dangling else Yields(r, t))
  {
    hide ResultSet.Valid, Encode, GoodStop, GoodMove, NamedIn, ColumnsEndAt, Feed, Yields, Feasible, Remainder,
      AllData, Marks;
    ThreeMarks(r);
    var w, k := Encode(r), ColumnsEndAt(r);
    var es := [Data(w[..k], false), Data(w[k..], true), Block];
    ThreeEvents(w[..k], w[k..]);
    assert w[..k] + w[k..] == w;
    ClientYields(r, |w|, es);
    HarmIsDone(r, |w|, es);
    assert Move(k) in Marks(0, |w|, 0, [], es);
  }

  lemma ThreeMarks(r: ResultSet)
    requires r.Valid()
    ensures var w, k := Encode(r), ColumnsEndAt(r);
            && 0 < k < |w|
            && GoodStop(r, Parse(k)) && GoodStop(r, Move(k)) && GoodStop(r, Parse(|w|))
            && GoodMove(r, Parse(k)) && GoodMove(r, Parse(|w|))
            && (GoodMove(r, Move(k)) <==> !NamedIn(r, |r.columns|, 0, |r.rows|))
  {
    hide ResultSet.Valid, Encode, BadCut, Boundary, RowsDone, ColumnsDone, NamedIn, ColumnsEndAt, Waiting, AtRows;
    BehindColumns(r);
  }

  /** The columns in one delivery. */
  lemma ColumnsDelivered(r: ResultSet, size: nat)
    requires r.Valid() && size > |Encode(r)|
    ensures var k := ColumnsEndAt(r);
            && k < |Encode(r)|
            && Deliver(Start(size), Data(Encode(r)[..k], false)) == Link(AtRows(r, 0, []), k, size, 0, Again)
  {
    hide ResultSet.Valid, Encode, BadCut, RowsDone, ColumnsDone, ColumnsEndAt, Waiting, Response, ReadsName, AtRows,
      NamedIn, Deliver;
    BehindColumns(r);
    WaitingAtStart(r);
    var a, l := Encode(r)[..ColumnsEndAt(r)], Start(size);
    assert [] + a == a;
    CallOn(r, 0, a);
    NameRead(r, 0, a, 0);
    NothingLeftBehind(r, RowsDone(r, 0), RowsDone(r, |a|));
    ParseNext(l, Waiting(r, 0), [], Data(a, false));
  }

  lemma NothingLeftBehind(r: ResultSet, lo: nat, hi: nat)
    requires r.Valid() && hi <= |r.rows|
    ensures !NamedIn(r, 0, lo, hi)
  {
  }

  lemma IdleDelivered(l: Link)
    requires l.p.Valid() && l.outcome == Again && l.p.unread == []
    ensures Deliver(l, Block) == l.(outcome := Finished)
  {
  }

  /** A call without a new byte reports success: at the start without a reply, and behind the columns
      without the rows, which come later. */
  lemma IdleCallSucceeds(r: ResultSet, size: nat)
    requires r.Valid() && size > |Encode(r)|
    ensures Feed(Start(size), [Block]) == Start(size).(outcome := Finished)
    ensures var w, k := Encode(r), ColumnsEndAt(r);
            && k < |w|
            && var t := Feed(Start(size), [Data(w[..k], false), Block, Data(w[k..], false)]);
               t.outcome == Finished && t.p == AtRows(r, 0, [])
  {
    hide ResultSet.Valid, Encode, ColumnsEndAt, Deliver;
    ColumnsDelivered(r, size);
    var l, e, w, k := Start(size), Data(Encode(r)[..ColumnsEndAt(r)], false), Encode(r), ColumnsEndAt(r);
    OneEvent(l, Block);
    IdleDelivered(l);
    IdleDelivered(Deliver(l, e));
    var last := Data(w[k..], false);
    assert [e, Block, last][1..] == [Block, last] && [Block, last][1..] == [last];
    Ended(Deliver(Deliver(l, e), Block), [last]);
  }

  lemma OneEvent(l: Link, e: Event)
    requires l.p.Valid()
    ensures Feed(l, [e]) == Deliver(l, e)
  {
    assert Feed(l, [e]) == Feed(Deliver(l, e), []);
  }
}
