/**
  * The life of an HTTP/1 response object: write, end, sendfile, gzip and header calls in
  * any order, with sends that may fail, and what reaches the wire.
  */
module HttpResponse {
  import opened Options
  import opened Bytes
  import C = Chunked

  // -------------------------------------------------------------------- the wire

  /** The header fields that say how long the body is (section 3.3 of RFC 7230). */
  datatype Field = UserLength | UserEncoding | Length(n: int) | Encoded

  datatype Piece = Head(fields: seq<Field>) | Body(bytes: seq<Byte>)

  /** All body bytes on the wire. */
  function BodyOf(wire: seq<Piece>): seq<Byte> {
    if wire == [] then []
    else (if wire[0].Body? then wire[0].bytes else []) + BodyOf(wire[1..])
  }

  ghost predicate OnlyBodies(wire: seq<Piece>) {
    forall k :: 0 <= k < |wire| ==> wire[k].Body?
  }

  /** One header block with one framing field, and a body that is what the field says and
      carries `content`. */
  ghost predicate WellFramed(wire: seq<Piece>, content: seq<Byte>) {
    && wire != [] && wire[0].Head? && OnlyBodies(wire[1..])
    && |wire[0].fields| == 1
    && match wire[0].fields[0]
       case Length(n) => |BodyOf(wire)| == n && BodyOf(wire) == content
       case Encoded => C.Decode(BodyOf(wire)) == Some(content)
       case _ => false
  }

  // ------------------------------------------------------------------- the calls

  const INT_MAX: nat := 0x7FFF_FFFF

  /** A PHP string: its length is an int. */
  type Text = s: seq<Byte> | |s| <= INT_MAX witness []

  /** A size passed as an int. */
  function AsInt(n: nat): int {
    var m := n % 0x1_0000_0000;
    if m <= INT_MAX then m else m - 0x1_0000_0000
  }

  lemma AsIntIs(n: nat)
    ensures AsInt(n) == n <==> n < 0x8000_0000
    ensures AsInt(n) <= INT_MAX
  {
  }

  /** The context, the part of it that the calls look at. `zlib` is the shared compression
      buffer, `content` what the accepted calls asked to send. */
  datatype Context = Context(
    options: bool, userLength: bool, userEncoding: bool,
    live: bool, sendHeader: bool, chunk: bool, gzip: bool, zlib: seq<Byte>,
    aborted: bool, wire: seq<Piece>, content: seq<seq<Byte>>)

  function Fresh(options: bool, zlib: seq<Byte>): Context {
    Context(options, false, false, true, false, false, false, zlib, false, [], [])
  }

  /** The framing fields that http_build_header prints, `length` being its int argument. */
  function Framing(s: Context, length: int): seq<Field> {
    (if s.userLength then [UserLength] else []) +
    (if s.userEncoding then [UserEncoding] else []) +
    (if s.options then [Length(0)]
     else if !s.userLength && length >= 0 then [Length(if s.gzip then AsInt(|s.zlib|) else length)]
     else []) +
    (if s.chunk then [Encoded] else [])
  }

  /** swoole_http_context_free. */
  function Freed(s: Context): Context {
    s.(live := false, sendHeader := false, gzip := false)
  }

  /** http_build_header starts with assert(send_header == 0). */
  function Aborted(s: Context): Context {
    s.(aborted := true)
  }

  datatype Call =
    | Write(data: Option<Text>, headOk: bool, bodyOk: bool)   // None: the argument is no string
    | End(data: Option<Text>, ok: bool)
    | Sendfile(file: Option<seq<Byte>>, headOk: bool, bodyOk: bool)
    | Gzip
    | SetLength
    | SetEncoding

  /** response->write. The header goes out before the data is looked at. */
  function OnWrite(s: Context, gz: seq<Byte> -> seq<Byte>, data: Option<Text>, headOk: bool, bodyOk: bool): (r: Context)
    ensures r.options == s.options && r.gzip == s.gzip
  {
    if !s.live then s
    else if !s.sendHeader && !headOk then s.(chunk := false)
    else
      var t := if s.sendHeader then s
               else var c := s.(chunk := true); c.(sendHeader := true, wire := s.wire + [Head(Framing(c, -1))]);
      if data.None? || data.value == [] then t
      else
        var u := if t.gzip then t.(zlib := gz(data.value)) else t;
        var payload := if t.gzip then u.zlib else data.value;
        if bodyOk then u.(wire := u.wire + [Body(C.Chunk(payload))], content := u.content + [payload]) else u
  }

  /** response->end. With chunks under way it only sends the last one. */
  function OnEnd(s: Context, gz: seq<Byte> -> seq<Byte>, data: Option<Text>, ok: bool): (r: Context)
    ensures r.options == s.options && (r.gzip ==> s.gzip)
  {
    if data.None? || !s.live then s
    else if s.chunk then
      if ok then Freed(s.(chunk := false, wire := s.wire + [Body(C.LAST)])) else s
    else
      var body := data.value;
      var t := if !s.gzip then s else if body == [] then s.(gzip := false) else s.(zlib := gz(body));
      var payload := if t.gzip then t.zlib else body;
      if t.sendHeader then Aborted(t)
      else if ok then
        Freed(t.(wire := t.wire + [Head(Framing(t, |body|)), Body(payload)], content := t.content + [payload]))
      else t
  }

  /** response->sendfile. */
  function OnSendfile(s: Context, file: Option<seq<Byte>>, headOk: bool, bodyOk: bool): (r: Context)
    ensures r.options == s.options && (r.gzip ==> s.gzip)
  {
    if !s.live || s.chunk || file.None? || file.value == [] then s
    else if s.sendHeader then Aborted(s)
    else if !headOk then s
    else
      var t := s.(wire := s.wire + [Head(Framing(s, AsInt(|file.value|)))]);
      if bodyOk then Freed(t.(wire := t.wire + [Body(file.value)], content := t.content + [file.value])) else t
  }

  /** response->gzip. */
  function OnGzip(s: Context): Context {
    if !s.live || s.sendHeader then s else s.(gzip := true)
  }

  function Step(s: Context, gz: seq<Byte> -> seq<Byte>, c: Call): (r: Context)
    ensures r.options == s.options && (r.gzip ==> s.gzip || c.Gzip?)
  {
    match c
    case Write(data, headOk, bodyOk) => OnWrite(s, gz, data, headOk, bodyOk)
    case End(data, ok) => OnEnd(s, gz, data, ok)
    case Sendfile(file, headOk, bodyOk) => OnSendfile(s, file, headOk, bodyOk)
    case Gzip => OnGzip(s)
    case SetLength => if s.live then s.(userLength := true) else s
    case SetEncoding => if s.live then s.(userEncoding := true) else s
  }

  function Run(s: Context, gz: seq<Byte> -> seq<Byte>, calls: seq<Call>): Context
    decreases |calls|
  {
    if calls == [] then s else Run(Step(s, gz, calls[0]), gz, calls[1..])
  }

  // -------------------------------------------- any run, any failures: no abort

  /** Between calls, a header has been sent exactly when chunks are under way. */
  ghost predicate Steady(s: Context) {
    !s.aborted && (s.live ==> s.sendHeader == s.chunk)
  }

  lemma SteadyStep(s: Context, gz: seq<Byte> -> seq<Byte>, c: Call)
    requires Steady(s)
    ensures Steady(Step(s, gz, c))
  {
    hide Framing, C.Chunk;
  }

  lemma {:induction false} NeverAborts(s: Context, gz: seq<Byte> -> seq<Byte>, calls: seq<Call>)
    requires Steady(s)
    ensures Steady(Run(s, gz, calls))
    decreases |calls|
  {
    hide Step, Steady;
    if calls != [] {
      SteadyStep(s, gz, calls[0]);
      NeverAborts(Step(s, gz, calls[0]), gz, calls[1..]);
    }
  }

  /** Once a call has freed the context, nothing more is sent or changed. */
  lemma {:induction false} SilentOnceFreed(s: Context, gz: seq<Byte> -> seq<Byte>, calls: seq<Call>)
    requires !s.live
    ensures Run(s, gz, calls) == s
    decreases |calls|
  {
    if calls != [] {
      SilentOnceFreed(s, gz, calls[1..]);
    }
  }

  // -------------------------------------------- runs whose sends succeed: framing

  predicate Succeeds(c: Call) {
    match c
    case Write(_, headOk, bodyOk) => headOk && bodyOk
    case End(_, ok) => ok
    case Sendfile(_, headOk, bodyOk) => headOk && bodyOk
    case _ => true
  }

  predicate PlainCall(c: Call) {
    Succeeds(c) && !c.SetLength? && !c.SetEncoding?
  }

  /** Every send succeeds, and the user sets no framing header. */
  predicate PlainRun(calls: seq<Call>) {
    forall k :: 0 <= k < |calls| ==> PlainCall(calls[k])
  }

  ghost predicate Compressor(gz: seq<Byte> -> seq<Byte>) {
    forall b :: 0 < |gz(b)| <= INT_MAX
  }

  function ChunkPieces(bs: seq<seq<Byte>>): (ps: seq<Piece>)
    ensures |ps| == |bs|
  {
    seq(|bs|, k requires 0 <= k < |bs| => Body(C.Chunk(bs[k])))
  }

  ghost predicate NoEmpty(bs: seq<seq<Byte>>) {
    forall k :: 0 <= k < |bs| ==> bs[k] != []
  }

  /** The head of a chunked response, and of one with a known length. */
  function ChunkHead(options: bool): Piece {
    Head(if options then [Length(0), Encoded] else [Encoded])
  }

  function LengthHead(options: bool, n: nat): Piece {
    FileHead(options, n, n)
  }

  /** The head for a file of `n` bytes, `said` being the length that is announced. */
  function FileHead(options: bool, n: nat, said: nat): Piece {
    Head(if options then [Length(0)] else if AsInt(n) >= 0 then [Length(AsInt(said))] else [])
  }

  ghost predicate IsLengthHead(p: Piece) {
    p.Head? && Encoded !in p.fields
  }

  /** What the wire holds in every state of such a run. */
  ghost predicate Shaped(s: Context) {
    && !s.userLength && !s.userEncoding
    && (s.live ==> s.sendHeader == s.chunk)
    && (s.live && !s.chunk ==> s.wire == [] && s.content == [])
    && (s.live && s.chunk ==>
          NoEmpty(s.content) && s.wire == [ChunkHead(s.options)] + ChunkPieces(s.content))
    && (!s.live ==>
          || (NoEmpty(s.content) && s.wire == [ChunkHead(s.options)] + ChunkPieces(s.content) + [Body(C.LAST)])
          || (|s.content| == 1 && |s.wire| == 2 && IsLengthHead(s.wire[0]) && s.wire[1] == Body(s.content[0])))
  }

  /** The framing fields when the user set none. */
  lemma PlainFraming(s: Context, length: int)
    requires !s.userLength && !s.userEncoding
    ensures s.chunk && length < 0 ==> Head(Framing(s, length)) == ChunkHead(s.options)
    ensures !s.chunk && 0 <= length <= INT_MAX && (s.gzip ==> |s.zlib| <= INT_MAX) ==>
              Head(Framing(s, length)) == LengthHead(s.options, if s.gzip then |s.zlib| else length)
  {
    var f := Framing(s, length);
    if s.chunk && length < 0 {
      assert f == if s.options then [Length(0), Encoded] else [Encoded];
    } else if !s.chunk && length >= 0 {
      assert f == [Length(if s.options then 0 else if s.gzip then AsInt(|s.zlib|) else length)];
    }
  }

  lemma FileFraming(s: Context, n: nat)
    requires !s.userLength && !s.userEncoding && !s.chunk
    ensures Head(Framing(s, AsInt(n))) == FileHead(s.options, n, if s.gzip then |s.zlib| else n)
    ensures IsLengthHead(Head(Framing(s, AsInt(n))))
  {
    hide AsInt;
    var f := Framing(s, AsInt(n));
    assert f == if s.options then [Length(0)]
                else if AsInt(n) >= 0 then [Length(if s.gzip then AsInt(|s.zlib|) else AsInt(n))]
                else [];
  }

  lemma ChunkPiecesGrow(bs: seq<seq<Byte>>, b: seq<Byte>)
    ensures ChunkPieces([]) == []
    ensures ChunkPieces(bs + [b]) == ChunkPieces(bs) + [Body(C.Chunk(b))]
  {
    hide C.Chunk;
  }

  lemma ShapedWrite(s: Context, gz: seq<Byte> -> seq<Byte>, data: Option<Text>)
    requires Shaped(s) && Compressor(gz)
    ensures Shaped(OnWrite(s, gz, data, true, true))
  {
    hide C.Chunk, Framing, ChunkPieces, ChunkHead;
    if s.live {
      var head := ChunkHead(s.options);
      PlainFraming(s.(chunk := true), -1);
      var b := if data.None? || data.value == [] then [] else if s.gzip then gz(data.value) else data.value;
      ChunkPiecesGrow(s.content, b);
      assert [head] + [] == [head];
      var last := [Body(C.Chunk(b))];
      assert [head] + (ChunkPieces(s.content) + last) == ([head] + ChunkPieces(s.content)) + last;
    }
  }

  lemma ShapedEnd(s: Context, gz: seq<Byte> -> seq<Byte>, data: Option<Text>)
    requires Shaped(s) && Compressor(gz)
    ensures Shaped(OnEnd(s, gz, data, true))
  {
    hide C.Chunk, Framing, FileHead, AsInt;
    if s.live && data.Some? && !s.chunk {
      var body := data.value;
      var t := if !s.gzip then s else if body == [] then s.(gzip := false) else s.(zlib := gz(body));
      PlainFraming(t, |body|);
      FileFraming(t, |body|);
      AsIntIs(|body|);
    }
  }

  lemma ShapedSendfile(s: Context, file: Option<seq<Byte>>)
    requires Shaped(s)
    ensures Shaped(OnSendfile(s, file, true, true))
  {
    hide C.Chunk, Framing, FileHead;
    if s.live && !s.chunk && file.Some? && file.value != [] {
      FileFraming(s, |file.value|);
    }
  }

  lemma ShapedStep(s: Context, gz: seq<Byte> -> seq<Byte>, c: Call)
    requires Shaped(s) && Compressor(gz) && PlainCall(c)
    ensures Shaped(Step(s, gz, c))
  {
    hide OnWrite, OnEnd, OnSendfile;
    match c
    case Write(data, _, _) => ShapedWrite(s, gz, data);
    case End(data, _) => ShapedEnd(s, gz, data);
    case Sendfile(file, _, _) => ShapedSendfile(s, file);
    case _ =>
  }

  lemma {:induction false} ShapedRun(s: Context, gz: seq<Byte> -> seq<Byte>, calls: seq<Call>)
    requires Shaped(s) && Compressor(gz) && PlainRun(calls)
    ensures Shaped(Run(s, gz, calls))
    decreases |calls|
  {
    hide Shaped, Step;
    if calls != [] {
      ShapedStep(s, gz, calls[0]);
      ShapedRun(Step(s, gz, calls[0]), gz, calls[1..]);
    }
  }

  lemma {:induction false} BodyOfChunks(bs: seq<seq<Byte>>, more: seq<Piece>)
    ensures BodyOf(ChunkPieces(bs) + more) == C.Chunks(bs) + BodyOf(more)
    decreases |bs|
  {
    hide C.Chunk;
    if bs == [] {
      assert ChunkPieces(bs) + more == more && C.Chunks(bs) + BodyOf(more) == BodyOf(more);
    } else {
      BodyOfChunks(bs[1..], more);
      var all := ChunkPieces(bs) + more;
      assert all[1..] == ChunkPieces(bs[1..]) + more && all[0] == Body(C.Chunk(bs[0]));
      assert C.Chunks(bs) + BodyOf(more) == C.Chunk(bs[0]) + (C.Chunks(bs[1..]) + BodyOf(more));
    }
  }

  lemma ChunkedFraming(s: Context)
    requires NoEmpty(s.content)
    requires s.wire == [ChunkHead(s.options)] + ChunkPieces(s.content) + [Body(C.LAST)]
    ensures BodyOf(s.wire) != []
    ensures !s.options ==> WellFramed(s.wire, Flatten(s.content))
    ensures s.options ==> !WellFramed(s.wire, Flatten(s.content))
  {
    hide C.Decode, C.Chunks, Flatten;
    var last := [Body(C.LAST)];
    assert s.wire[1..] == ChunkPieces(s.content) + last;
    BodyOfChunks(s.content, last);
    assert BodyOf(last) == C.LAST + BodyOf(last[1..]) == C.LAST;
    assert BodyOf(s.wire) == [] + BodyOf(s.wire[1..]) == C.Chunks(s.content) + C.LAST;
    C.DecodeChunks(s.content);
    assert OnlyBodies(s.wire[1..]);
    assert !s.options ==> s.wire[0].fields == [Encoded];
    assert s.options ==> |s.wire[0].fields| == 2;
  }

  lemma LengthFraming(s: Context, said: nat)
    requires |s.content| == 1 && s.wire == [FileHead(s.options, |s.content[0]|, said), Body(s.content[0])]
    ensures WellFramed(s.wire, Flatten(s.content)) <==>
            if s.options then s.content[0] == [] else AsInt(|s.content[0]|) >= 0 && AsInt(said) == |s.content[0]|
  {
    var b := s.content[0];
    assert s.wire[1..] == [Body(b)] && s.wire[1..][1..] == [];
    assert BodyOf(s.wire[1..]) == b + BodyOf([]);
    assert Flatten(s.content) == b + Flatten(s.content[1..]) && s.content[1..] == [];
  }

  /** The call sends a header if none has been sent: it decides how the body is framed. */
  predicate Commits(c: Call) {
    match c
    case Write(_, _, _) => true
    case End(data, _) => data.Some?
    case Sendfile(file, _, _) => file.Some? && file.value != []
    case _ => false
  }

  function FirstCommit(calls: seq<Call>): (r: Option<Call>)
    ensures r.Some? ==> r.value in calls && Commits(r.value)
  {
    if calls == [] then None
    else if Commits(calls[0]) then Some(calls[0])
    else FirstCommit(calls[1..])
  }

  lemma {:induction false} FirstPieceStays(s: Context, gz: seq<Byte> -> seq<Byte>, calls: seq<Call>)
    requires Steady(s) && s.wire != []
    ensures var t := Run(s, gz, calls); t.wire != [] && t.wire[0] == s.wire[0]
    decreases |calls|
  {
    hide Step, Steady;
    if calls != [] {
      SteadyStep(s, gz, calls[0]);
      var added := StepAdds(s, gz, calls[0]);
      FirstPieceStays(Step(s, gz, calls[0]), gz, calls[1..]);
    }
  }

  /** Nothing has been sent yet. */
  ghost predicate Uncommitted(s: Context) {
    Shaped(s) && s.live && !s.chunk
  }

  lemma UncommittedStep(s: Context, gz: seq<Byte> -> seq<Byte>, c: Call)
    requires Uncommitted(s) && PlainCall(c) && !Commits(c)
    ensures var t := Step(s, gz, c); Uncommitted(t) && t.zlib == s.zlib && t.gzip == (s.gzip || c.Gzip?)
  {
  }

  lemma EndCommits(s: Context, gz: seq<Byte> -> seq<Byte>, data: Text)
    requires Uncommitted(s) && Compressor(gz)
    ensures var t := Step(s, gz, End(Some(data), true));
            && !t.live && |t.content| == 1 && |t.content[0]| <= INT_MAX && (t.content[0] == [] <==> data == [])
            && t.wire == [LengthHead(s.options, |t.content[0]|), Body(t.content[0])]
  {
    hide C.Chunk, Framing, LengthHead;
    var t := if !s.gzip then s else if data == [] then s.(gzip := false) else s.(zlib := gz(data));
    PlainFraming(t, |data|);
  }

  lemma SendfileCommits(s: Context, gz: seq<Byte> -> seq<Byte>, file: seq<Byte>)
    requires Uncommitted(s) && file != []
    ensures var t := Step(s, gz, Sendfile(Some(file), true, true));
            && !t.live && t.content == [file]
            && t.wire == [FileHead(s.options, |file|, if s.gzip then |s.zlib| else |file|), Body(file)]
  {
    hide C.Chunk, Framing, FileHead;
    FileFraming(s, |file|);
  }

  lemma WriteCommits(s: Context, gz: seq<Byte> -> seq<Byte>, data: Option<Text>)
    requires Uncommitted(s) && Compressor(gz)
    ensures var t := Step(s, gz, Write(data, true, true)); t.wire != [] && t.wire[0] == ChunkHead(s.options)
  {
    hide C.Chunk, Framing, ChunkHead;
    PlainFraming(s.(chunk := true), -1);
  }

  /** What the first committing call makes of a response that is finished in the end; `gzip` tells
      whether gzip was on, `zlib` what the compression buffer held. */
  ghost predicate Decided(t: Context, options: bool, gzip: bool, zlib: seq<Byte>, c: Call) {
    match c
    case Write(_, _, _) => t.wire != [] && t.wire[0] == ChunkHead(options)
    case End(data, _) =>
      && |t.content| == 1 && OneBody(t, options, |t.content[0]|) && |t.content[0]| <= INT_MAX
      && (t.content[0] == [] <==> data == Some([]))
    case Sendfile(file, _, _) =>
      |t.content| == 1 && OneBody(t, options, if gzip then |zlib| else |t.content[0]|) && file == Some(t.content[0])
    case _ => false
  }

  ghost predicate OneBody(t: Context, options: bool, said: nat)
    requires |t.content| == 1
  {
    t.wire == [FileHead(options, |t.content[0]|, said), Body(t.content[0])]
  }

  /** gzip is called before the first committing call. */
  predicate GzipFirst(calls: seq<Call>) {
    calls != [] && !Commits(calls[0]) && (calls[0].Gzip? || GzipFirst(calls[1..]))
  }

  lemma {:induction false} FirstDecides(s: Context, gz: seq<Byte> -> seq<Byte>, calls: seq<Call>)
    requires Steady(s) && Uncommitted(s) && Compressor(gz) && PlainRun(calls)
    requires !Run(s, gz, calls).live
    ensures FirstCommit(calls).Some?
    ensures Decided(Run(s, gz, calls), s.options, s.gzip || GzipFirst(calls), s.zlib, FirstCommit(calls).value)
    decreases |calls|
  {
    hide FileHead, ChunkHead, Step, Uncommitted, Steady;
    assert calls != [] by { assert calls == [] ==> Run(s, gz, calls) == s; LiveUncommitted(s); }
    var c := calls[0];
    var t := Step(s, gz, c);
    SteadyStep(s, gz, c);
    if !Commits(c) {
      UncommittedStep(s, gz, c);
      SameMethod(s, gz, [c]);
      RunOne(s, gz, c);
      FirstDecides(t, gz, calls[1..]);
    } else {
      match c
      case Write(data, _, _) =>
        WriteCommits(s, gz, data);
        FirstPieceStays(t, gz, calls[1..]);
      case End(data, _) =>
        EndCommits(s, gz, data.value);
        SilentOnceFreed(t, gz, calls[1..]);
      case Sendfile(file, _, _) =>
        SendfileCommits(s, gz, file.value);
        SilentOnceFreed(t, gz, calls[1..]);
    }
  }

  lemma LiveUncommitted(s: Context)
    requires Uncommitted(s)
    ensures s.live
  {
  }

  /** The framing that follows from the first committing call is right. */
  predicate Sound(options: bool, zlib: seq<Byte>, calls: seq<Call>, c: Call) {
    if options then c.End? && c.data == Some([])
    else c.Sendfile? && c.file.Some? ==>
      if GzipFirst(calls) then AsInt(|c.file.value|) >= 0 && AsInt(|zlib|) == |c.file.value|
      else |c.file.value| < 0x8000_0000
  }

  /** A finished response whose sends all succeeded, without framing headers of the user's own, is
      well framed and carries what was accepted, if and only if the call that sent its header was
      - in reply to OPTIONS, an end without data;
      - otherwise not a sendfile of 2^31 bytes or more, nor one behind gzip, unless the compression
        buffer, which is shared, happens to have the length of the file. */
  lemma FinishedIsWellFramed(options: bool, zlib: seq<Byte>, gz: seq<Byte> -> seq<Byte>, calls: seq<Call>)
    requires Compressor(gz) && PlainRun(calls)
    requires !Run(Fresh(options, zlib), gz, calls).live
    ensures var s := Run(Fresh(options, zlib), gz, calls);
            && FirstCommit(calls).Some?
            && (WellFramed(s.wire, Flatten(s.content)) <==> Sound(options, zlib, calls, FirstCommit(calls).value))
  {
    hide WellFramed, FirstCommit, GzipFirst, ChunkHead, FileHead;
    var s := Run(Fresh(options, zlib), gz, calls);
    ShapedRun(Fresh(options, zlib), gz, calls);
    SameMethod(Fresh(options, zlib), gz, calls);
    FirstDecides(Fresh(options, zlib), gz, calls);
    var c := FirstCommit(calls).value;
    if c.Write? {
      HeadsDiffer(options);
      ChunkedFraming(s);
    } else {
      var said := if c.Sendfile? && GzipFirst(calls) then |zlib| else |s.content[0]|;
      AsIntIs(|s.content[0]|);
      hide AsInt;
      LengthFraming(s, said);
    }
  }

  lemma HeadsDiffer(options: bool)
    ensures !IsLengthHead(ChunkHead(options))
  {
    assert ChunkHead(options).fields[|ChunkHead(options).fields| - 1] == Encoded;
  }

  lemma {:induction false} SameMethod(s: Context, gz: seq<Byte> -> seq<Byte>, calls: seq<Call>)
    ensures Run(s, gz, calls).options == s.options
    decreases |calls|
  {
    hide Step;
    if calls != [] {
      SameMethod(Step(s, gz, calls[0]), gz, calls[1..]);
    }
  }

  /** When exactly a header block holds one framing field. */
  lemma OneFramingField(s: Context, length: int)
    ensures |Framing(s, length)| == 1 <==>
            if s.options then !s.userLength && !s.userEncoding && !s.chunk
            else if length >= 0 then !s.userEncoding && !s.chunk
            else
              || (s.userLength && !s.userEncoding && !s.chunk)
              || (!s.userLength && s.userEncoding && !s.chunk)
              || (!s.userLength && !s.userEncoding && s.chunk)
  {
  }

  // -------------------------------------------------------- what is written arrives

  function Writes(data: seq<Text>): seq<Call> {
    if data == [] then [] else [Call.Write(Some(data[0]), true, true)] + Writes(data[1..])
  }

  /** The pieces that are not empty, compressed one by one if asked for. */
  function Payloads(data: seq<Text>, gz: seq<Byte> -> seq<Byte>, gzip: bool): seq<seq<Byte>> {
    if data == [] then []
    else (if data[0] == [] then [] else [if gzip then gz(data[0]) else data[0]]) + Payloads(data[1..], gz, gzip)
  }

  lemma {:induction false} RunAppend(s: Context, gz: seq<Byte> -> seq<Byte>, xs: seq<Call>, ys: seq<Call>)
    ensures Run(s, gz, xs + ys) == Run(Run(s, gz, xs), gz, ys)
    decreases |xs|
  {
    hide Step;
    if xs == [] {
      assert xs + ys == ys;
    } else {
      assert (xs + ys)[1..] == xs[1..] + ys;
      RunAppend(Step(s, gz, xs[0]), gz, xs[1..], ys);
    }
  }

  lemma {:induction false} WritesPlain(data: seq<Text>)
    ensures forall k :: 0 <= k < |Writes(data)| ==> Writes(data)[k].Write? && PlainCall(Writes(data)[k])
  {
    if data != [] { WritesPlain(data[1..]); }
  }

  lemma {:induction false} RunWrites(s: Context, gz: seq<Byte> -> seq<Byte>, data: seq<Text>)
    requires Steady(s) && s.live
    ensures var t := Run(s, gz, Writes(data));
            && Steady(t) && t.live && t.gzip == s.gzip && t.chunk == (s.chunk || data != [])
            && t.content == s.content + Payloads(data, gz, s.gzip)
    decreases |data|
  {
    hide Step, Steady, Payloads, Writes, Run;
    NoPayloads(gz, s.gzip);
    if data == [] {
      RunNone(s, gz);
    } else {
      var c := Call.Write(Some(data[0]), true, true);
      PayloadsCons(data, gz, s.gzip);
      RunCons(s, gz, data);
      WriteStep(s, gz, data[0]);
      RunWrites(Step(s, gz, c), gz, data[1..]);
    }
  }

  lemma RunNone(s: Context, gz: seq<Byte> -> seq<Byte>)
    ensures Writes([]) == [] && Run(s, gz, []) == s
  {
  }

  lemma RunCons(s: Context, gz: seq<Byte> -> seq<Byte>, data: seq<Text>)
    requires data != []
    ensures Run(s, gz, Writes(data)) == Run(Step(s, gz, Call.Write(Some(data[0]), true, true)), gz, Writes(data[1..]))
  {
    hide Step;
    assert Writes(data)[1..] == Writes(data[1..]);
  }

  lemma RunOne(s: Context, gz: seq<Byte> -> seq<Byte>, c: Call)
    ensures Run(s, gz, [c]) == Step(s, gz, c)
  {
    hide Step;
    var one := [c];
    assert one[1..] == [];
  }

  lemma PayloadsCons(data: seq<Text>, gz: seq<Byte> -> seq<Byte>, gzip: bool)
    requires data != []
    ensures Payloads(data, gz, gzip) == Payloads([data[0]], gz, gzip) + Payloads(data[1..], gz, gzip)
  {
    var one := [data[0]];
    assert one[1..] == [];
  }

  lemma WriteStep(s: Context, gz: seq<Byte> -> seq<Byte>, piece: Text)
    requires Steady(s) && s.live
    ensures var t := Step(s, gz, Call.Write(Some(piece), true, true));
            && Steady(t) && t.live && t.gzip == s.gzip && t.chunk
            && t.content == s.content + Payloads([piece], gz, s.gzip)
  {
    hide Framing, C.Chunk;
    assert Payloads([piece], gz, s.gzip) == if piece == [] then [] else [if s.gzip then gz(piece) else piece];
  }

  /** Any number of writes and an end: one header block, and a body that carries the pieces that
      were written, in order; what is given to end with them is not sent. Without writes it carries
      what is given to end. */
  lemma WritesArrive(zlib: seq<Byte>, gz: seq<Byte> -> seq<Byte>, gzip: bool, data: seq<Text>, last: Text)
    requires Compressor(gz)
    ensures var s := Run(Fresh(false, zlib), gz, WritesCalls(gzip, data, last));
            !s.live &&
            WellFramed(s.wire, Flatten(if data == [] then Payloads([last], gz, gzip) else Payloads(data, gz, gzip)))
  {
    hide WellFramed, Run, WritesCalls, Payloads, Flatten, PlainRun, BodyOf, FirstCommit;
    var calls := WritesCalls(gzip, data, last);
    WritesContent(zlib, gz, gzip, data, last);
    WritesRunPlain(gzip, data, last);
    FinishedIsWellFramed(false, zlib, gz, calls);
    LastAlone(last, gz, gzip);
  }

  function WritesCalls(gzip: bool, data: seq<Text>, last: Text): seq<Call> {
    (if gzip then [Gzip] else []) + Writes(data) + [End(Some(last), true)]
  }

  lemma WritesRunPlain(gzip: bool, data: seq<Text>, last: Text)
    ensures PlainRun(WritesCalls(gzip, data, last))
    ensures forall k :: 0 <= k < |WritesCalls(gzip, data, last)| ==> !WritesCalls(gzip, data, last)[k].Sendfile?
  {
    hide Writes;
    WritesPlain(data);
    var calls := WritesCalls(gzip, data, last);
    assert forall k :: 0 <= k < |calls| ==> PlainCall(calls[k]) && !calls[k].Sendfile?;
  }

  lemma WritesContent(zlib: seq<Byte>, gz: seq<Byte> -> seq<Byte>, gzip: bool, data: seq<Text>, last: Text)
    ensures var s := Run(Fresh(false, zlib), gz, WritesCalls(gzip, data, last));
            && !s.live
            && s.content == if data == [] then [if gzip && last != [] then gz(last) else last]
                            else Payloads(data, gz, gzip)
  {
    var first := if gzip then [Gzip] else [];
    var end := [End(Some(last), true)];
    var s0 := Run(Fresh(false, zlib), gz, first);
    RunOne(Fresh(false, zlib), gz, Gzip);
    assert s0 == Fresh(false, zlib).(gzip := gzip);
    NoPayloads(gz, gzip);
    hide Run, Step, Payloads, Writes;
    RunAppend(Fresh(false, zlib), gz, first + Writes(data), end);
    RunAppend(Fresh(false, zlib), gz, first, Writes(data));
    RunWrites(s0, gz, data);
    EndFinishes(Run(s0, gz, Writes(data)), gz, last);
  }

  lemma NoPayloads(gz: seq<Byte> -> seq<Byte>, gzip: bool)
    ensures Payloads([], gz, gzip) == []
  {
  }

  lemma LastAlone(last: Text, gz: seq<Byte> -> seq<Byte>, gzip: bool)
    ensures Flatten([if gzip && last != [] then gz(last) else last]) == Flatten(Payloads([last], gz, gzip))
  {
    assert Payloads([last], gz, gzip) == if last == [] then [] else [if gzip then gz(last) else last];
  }

  lemma EndFinishes(s: Context, gz: seq<Byte> -> seq<Byte>, last: Text)
    requires Steady(s) && s.live
    ensures var t := Run(s, gz, [End(Some(last), true)]);
            && !t.live
            && t.content == if s.chunk then s.content else s.content + [if s.gzip && last != [] then gz(last) else last]
  {
    hide Framing, C.Chunk;
    RunOne(s, gz, End(Some(last), true));
  }

  // --------------------------------------------------- any run: how many header blocks

  function Heads(wire: seq<Piece>): nat {
    if wire == [] then 0 else (if wire[0].Head? then 1 else 0) + Heads(wire[1..])
  }

  lemma {:induction false} HeadsConcat(a: seq<Piece>, b: seq<Piece>)
    ensures Heads(a + b) == Heads(a) + Heads(b)
  {
    if a == [] {
      assert a + b == b;
    } else {
      assert (a + b)[1..] == a[1..] + b;
      HeadsConcat(a[1..], b);
    }
  }

  /** The call sends a header block, successfully, unless one has been sent for good. */
  predicate Announces(c: Call) {
    match c
    case Write(_, headOk, _) => headOk
    case End(data, ok) => data.Some? && ok
    case Sendfile(file, headOk, _) => file.Some? && file.value != [] && headOk
    case _ => false
  }

  /** The call is a sendfile that sends its header but not its file. */
  predicate LosesFile(c: Call) {
    c.Sendfile? && Announces(c) && !c.bodyOk
  }

  /** A header has gone out for good: the context is freed, or chunks are under way. */
  predicate Spent(s: Context) {
    !s.live || s.chunk
  }

  predicate SendsHead(s: Context, c: Call) {
    !Spent(s) && Announces(c)
  }

  /** A step adds to the wire, and adds a header block exactly if it sends one. */
  lemma StepAdds(s: Context, gz: seq<Byte> -> seq<Byte>, c: Call) returns (added: seq<Piece>)
    requires Steady(s)
    ensures Step(s, gz, c).wire == s.wire + added
    ensures Heads(added) == if SendsHead(s, c) then 1 else 0
  {
    match c
    case Write(data, headOk, bodyOk) => added := WriteAdds(s, gz, data, headOk, bodyOk);
    case End(data, ok) => added := EndAdds(s, gz, data, ok);
    case Sendfile(file, headOk, bodyOk) => added := SendfileAdds(s, file, headOk, bodyOk);
    case _ => added := []; assert s.wire + [] == s.wire;
  }

  lemma WriteAdds(s: Context, gz: seq<Byte> -> seq<Byte>, data: Option<Text>, headOk: bool, bodyOk: bool)
    returns (added: seq<Piece>)
    requires Steady(s)
    ensures OnWrite(s, gz, data, headOk, bodyOk).wire == s.wire + added
    ensures Heads(added) == if SendsHead(s, Write(data, headOk, bodyOk)) then 1 else 0
  {
    hide Framing, C.Chunk;
    var t := OnWrite(s, gz, data, headOk, bodyOk);
    var head := if s.live && !s.sendHeader && headOk then [Head(Framing(s.(chunk := true), -1))] else [];
    var sent := s.live && (s.sendHeader || headOk) && data.Some? && data.value != [] && bodyOk;
    var body := if sent then [Body(C.Chunk(if s.gzip then gz(data.value) else data.value))] else [];
    added := head + body;
    assert t.wire == s.wire + head + body;
    assert s.wire + head + body == s.wire + (head + body);
    HeadsConcat(head, body);
  }

  lemma EndAdds(s: Context, gz: seq<Byte> -> seq<Byte>, data: Option<Text>, ok: bool) returns (added: seq<Piece>)
    requires Steady(s)
    ensures OnEnd(s, gz, data, ok).wire == s.wire + added
    ensures Heads(added) == if SendsHead(s, End(data, ok)) then 1 else 0
  {
    hide Framing, C.Chunk;
    var t := OnEnd(s, gz, data, ok);
    if data.None? || !s.live || !ok {
      added := [];
    } else if s.chunk {
      added := [Body(C.LAST)];
    } else {
      var u := if !s.gzip then s else if data.value == [] then s.(gzip := false) else s.(zlib := gz(data.value));
      var head, body := [Head(Framing(u, |data.value|))], [Body(if u.gzip then u.zlib else data.value)];
      added := head + body;
      HeadsConcat(head, body);
    }
    assert s.wire + [] == s.wire;
  }

  lemma SendfileAdds(s: Context, file: Option<seq<Byte>>, headOk: bool, bodyOk: bool) returns (added: seq<Piece>)
    requires Steady(s)
    ensures OnSendfile(s, file, headOk, bodyOk).wire == s.wire + added
    ensures Heads(added) == if SendsHead(s, Sendfile(file, headOk, bodyOk)) then 1 else 0
  {
    hide Framing;
    var t := OnSendfile(s, file, headOk, bodyOk);
    var head := if SendsHead(s, Sendfile(file, headOk, bodyOk)) then [Head(Framing(s, AsInt(|file.value|)))] else [];
    var body := if head != [] && bodyOk then [Body(file.value)] else [];
    added := head + body;
    assert t.wire == s.wire + head + body;
    assert s.wire + head + body == s.wire + (head + body);
    HeadsConcat(head, body);
  }

  lemma SpentStep(s: Context, gz: seq<Byte> -> seq<Byte>, c: Call)
    requires Steady(s)
    ensures Spent(Step(s, gz, c)) <==> Spent(s) || (Announces(c) && !LosesFile(c))
  {
    hide Framing, C.Chunk;
  }

  /** The header blocks that calls send: one for each file lost in front, and one for good. */
  function HeadCount(calls: seq<Call>): nat {
    if calls == [] then 0
    else if !Announces(calls[0]) then HeadCount(calls[1..])
    else if LosesFile(calls[0]) then 1 + HeadCount(calls[1..])
    else 1
  }

  /** Over every run, whatever sends fail: how many header blocks go out. */
  lemma {:induction false} HeadsCounted(s: Context, gz: seq<Byte> -> seq<Byte>, calls: seq<Call>)
    requires Steady(s)
    ensures Heads(Run(s, gz, calls).wire) == Heads(s.wire) + if Spent(s) then 0 else HeadCount(calls)
    decreases |calls|
  {
    hide Step, Heads, Steady, Announces, Spent;
    if calls != [] {
      var t := Step(s, gz, calls[0]);
      var added := StepAdds(s, gz, calls[0]);
      HeadsConcat(s.wire, added);
      SpentStep(s, gz, calls[0]);
      SteadyStep(s, gz, calls[0]);
      HeadsCounted(t, gz, calls[1..]);
    }
  }

  /** The first call that sends a header loses its file, and a later call sends a header. */
  ghost predicate AnnouncedTwice(calls: seq<Call>) {
    exists i, j :: 0 <= i < j < |calls| && LosesFile(calls[i]) && Announces(calls[j])
                   && forall k :: 0 <= k < i ==> !Announces(calls[k])
  }

  lemma {:induction false} SomeHead(calls: seq<Call>)
    ensures HeadCount(calls) > 0 <==> exists j :: 0 <= j < |calls| && Announces(calls[j])
    decreases |calls|
  {
    hide Announces;
    if calls != [] && !Announces(calls[0]) {
      SomeHead(calls[1..]);
      assert forall j :: 0 < j < |calls| ==> calls[j] == calls[1..][j - 1];
    }
  }

  lemma {:induction false} MoreHeads(calls: seq<Call>)
    ensures HeadCount(calls) > 1 <==> AnnouncedTwice(calls)
    decreases |calls|
  {
    hide Announces;
    if calls != [] {
      var rest := calls[1..];
      assert forall j :: 0 < j < |calls| ==> calls[j] == rest[j - 1];
      SomeHead(rest);
      if Announces(calls[0]) {
        if LosesFile(calls[0]) && HeadCount(rest) > 0 {
          var j :| 0 <= j < |rest| && Announces(rest[j]);
          assert 0 < j + 1 < |calls| && Announces(calls[j + 1]);
        }
      } else {
        MoreHeads(rest);
        TwiceLater(calls);
      }
    }
  }

  lemma TwiceLater(calls: seq<Call>)
    requires calls != [] && !Announces(calls[0])
    ensures AnnouncedTwice(calls) <==> AnnouncedTwice(calls[1..])
  {
    hide Announces;
    var rest := calls[1..];
    assert forall j :: 0 < j < |calls| ==> calls[j] == rest[j - 1];
    if AnnouncedTwice(calls) {
      var i, j :| 0 <= i < j < |calls| && LosesFile(calls[i]) && Announces(calls[j])
                  && forall k :: 0 <= k < i ==> !Announces(calls[k]);
      assert LosesFile(rest[i - 1]) && Announces(rest[j - 1]);
      forall k | 0 <= k < i - 1 ensures !Announces(rest[k]) {
        assert rest[k] == calls[k + 1];
      }
    }
    if AnnouncedTwice(rest) {
      var i, j :| 0 <= i < j < |rest| && LosesFile(rest[i]) && Announces(rest[j])
                  && forall k :: 0 <= k < i ==> !Announces(rest[k]);
      assert LosesFile(calls[i + 1]) && Announces(calls[j + 1]);
      forall k | 0 <= k < i + 1 ensures !Announces(calls[k]) {
        if k > 0 { assert calls[k] == rest[k - 1]; }
      }
    }
  }

  /** Over every run, whatever sends fail: more than one header block goes out if and only if the
      first call that sends a header is a sendfile that loses its file, and a later call sends one. */
  lemma SecondHeaderIff(options: bool, zlib: seq<Byte>, gz: seq<Byte> -> seq<Byte>, calls: seq<Call>)
    ensures Heads(Run(Fresh(options, zlib), gz, calls).wire) > 1 <==> AnnouncedTwice(calls)
  {
    hide Run, AnnouncedTwice;
    HeadsCounted(Fresh(options, zlib), gz, calls);
    MoreHeads(calls);
  }

  // -------------------------------------------------------- framing fields of the user

  /** A length the user gave stands alone; an encoding the user gave stands beside the length. */
  lemma UserFields(zlib: seq<Byte>, gz: seq<Byte> -> seq<Byte>, data: Text)
    ensures Run(Fresh(false, zlib), gz, [SetLength, End(Some(data), true)]).wire == [Head([UserLength]), Body(data)]
    ensures Run(Fresh(false, zlib), gz, [SetEncoding, End(Some(data), true)]).wire
            == [Head([UserEncoding, Length(|data|)]), Body(data)]
  {
    var s, end := Fresh(false, zlib), End(Some(data), true);
    var a, b := s.(userLength := true), s.(userEncoding := true);
    assert [SetLength, end][1..] == [end] && [SetEncoding, end][1..] == [end];
    assert Run(s, gz, [SetLength, end]) == Run(a, gz, [end]) && Run(s, gz, [SetEncoding, end]) == Run(b, gz, [end]);
    RunOne(a, gz, end);
    RunOne(b, gz, end);
    assert Framing(a, |data|) == [UserLength] && Framing(b, |data|) == [UserEncoding, Length(|data|)];
  }

  // ---------------------------------------------------------------- sends that fail

  /** The call has something to send that fails. */
  predicate FailsToSend(s: Context, c: Call) {
    match c
    case Write(data, headOk, bodyOk) =>
      if !s.sendHeader && !headOk then true else data.Some? && data.value != [] && !bodyOk
    case End(data, ok) => data.Some? && !ok
    case Sendfile(file, headOk, bodyOk) => !s.chunk && file.Some? && file.value != [] && (!headOk || !bodyOk)
    case _ => false
  }

  /** A call whose send fails leaves the response live, and loses nothing that was sent. */
  lemma FailedSendKeepsLive(s: Context, gz: seq<Byte> -> seq<Byte>, c: Call)
    requires Steady(s) && s.live && FailsToSend(s, c)
    ensures Step(s, gz, c).live && s.wire <= Step(s, gz, c).wire && Step(s, gz, c).content == s.content
    ensures c.End? ==> Step(s, gz, c).wire == s.wire && Step(s, gz, c).chunk == s.chunk
  {
    match c
    case Write(data, headOk, bodyOk) => FailedWrite(s, gz, data, headOk, bodyOk);
    case End(data, ok) => FailedEnd(s, gz, data, ok);
    case Sendfile(file, headOk, bodyOk) => FailedSendfile(s, file, headOk, bodyOk);
    case _ =>
  }

  lemma FailedWrite(s: Context, gz: seq<Byte> -> seq<Byte>, data: Option<Text>, headOk: bool, bodyOk: bool)
    requires Steady(s) && s.live && FailsToSend(s, Write(data, headOk, bodyOk))
    ensures var t := OnWrite(s, gz, data, headOk, bodyOk); t.live && s.wire <= t.wire && t.content == s.content
  {
    hide Framing, C.Chunk;
  }

  lemma FailedEnd(s: Context, gz: seq<Byte> -> seq<Byte>, data: Option<Text>, ok: bool)
    requires Steady(s) && s.live && FailsToSend(s, End(data, ok))
    ensures var t := OnEnd(s, gz, data, ok);
            t.live && s.wire == t.wire && t.content == s.content && t.chunk == s.chunk
  {
    hide Framing, C.Chunk;
  }

  lemma FailedSendfile(s: Context, file: Option<seq<Byte>>, headOk: bool, bodyOk: bool)
    requires Steady(s) && s.live && FailsToSend(s, Sendfile(file, headOk, bodyOk))
    ensures var t := OnSendfile(s, file, headOk, bodyOk); t.live && s.wire <= t.wire && t.content == s.content
  {
    hide Framing, C.Chunk;
  }

  /** An end that failed any number of times and is repeated with success ends as it would have at once. */
  lemma {:induction false} RetriedEnd(s: Context, gz: seq<Byte> -> seq<Byte>, data: Text, n: nat)
    requires Steady(s) && s.live
    ensures var bad, good := End(Some(data), false), End(Some(data), true);
            var t, u := Run(s, gz, Tries(bad, n) + [good]), Step(s, gz, good);
            !t.live && t.wire == u.wire && t.content == u.content
    decreases n
  {
    hide Framing, C.Chunk;
    var bad, good := End(Some(data), false), End(Some(data), true);
    if n == 0 {
      assert Tries(bad, 0) + [good] == [good];
      RunOne(s, gz, good);
    } else {
      var calls := Tries(bad, n) + [good];
      assert calls[0] == bad && calls[1..] == Tries(bad, n - 1) + [good];
      var t := Step(s, gz, bad);
      SteadyStep(s, gz, bad);
      RetriedEnd(t, gz, data, n - 1);
    }
  }

  function Tries(c: Call, n: nat): (r: seq<Call>)
    ensures |r| == n
  {
    seq(n, _ => c)
  }

  // ------------------------------------------------------------- what goes wrong

  /** A file send that fails after its header leaves the flags as if nothing had been sent, and
      the next end sends a second header block. */
  lemma SecondHeader(gz: seq<Byte> -> seq<Byte>)
    ensures var s := Run(Fresh(false, []), gz, [Sendfile(Some([1]), true, false), End(Some([]), true)]);
            !s.live && s.wire == [Head([Length(1)]), Head([Length(0)]), Body([])]
  {
    var a, b := Sendfile(Some([1]), true, false), End(Some([]), true);
    var s := Fresh(false, []);
    PlainFraming(s, 1);
    var t := Step(s, gz, a);
    assert t.wire == [Head([Length(1)])];
    PlainFraming(t, 0);
    assert [a, b][1..] == [b] && [b][1..] == [];
    var u := Step(t, gz, b);
    assert u.wire == [Head([Length(1)]), Head([Length(0)]), Body([])];
    assert Run(s, gz, [a, b]) == Run(t, gz, [b]) == Run(u, gz, []) == u;
  }

  /** gzip before sendfile announces the length of an older compression. */
  lemma StaleLength(gz: seq<Byte> -> seq<Byte>, zlib: seq<Byte>, file: seq<Byte>)
    requires file != []
    ensures var s := Run(Fresh(false, zlib), gz, [Gzip, Sendfile(Some(file), true, true)]);
            && !s.live && s.wire == [Head(if AsInt(|file|) >= 0 then [Length(AsInt(|zlib|))] else []), Body(file)]
            && (WellFramed(s.wire, file) <==> AsInt(|file|) >= 0 && AsInt(|zlib|) == |file|)
  {
    hide AsInt;
    var a, b := Gzip, Sendfile(Some(file), true, true);
    var s := Fresh(false, zlib);
    var t := Step(s, gz, a);
    var u := Step(t, gz, b);
    assert [a, b][1..] == [b] && [b][1..] == [];
    assert Run(s, gz, [a, b]) == Run(t, gz, [b]) == Run(u, gz, []) == u;
    assert Framing(t, AsInt(|file|)) == if AsInt(|file|) >= 0 then [Length(AsInt(|zlib|))] else [];
    OneBodyPiece(u.wire, file);
  }

  lemma OneBodyPiece(wire: seq<Piece>, b: seq<Byte>)
    requires |wire| == 2 && wire[0].Head? && wire[1] == Body(b)
    ensures BodyOf(wire) == b
  {
    assert wire[1..] == [Body(b)] && wire[1..][1..] == [];
    assert BodyOf(wire) == [] + BodyOf(wire[1..]) && BodyOf(wire[1..]) == b + BodyOf([]);
  }

  /** A file of 2^31 bytes or more is never framed right: up to 2^32 it has no framing field. */
  lemma LargeFileUnframed(gz: seq<Byte> -> seq<Byte>, zlib: seq<Byte>, file: seq<Byte>)
    requires |file| >= 0x8000_0000
    ensures var s := Run(Fresh(false, zlib), gz, [Sendfile(Some(file), true, true)]);
            && !s.live && s.content == [file] && !WellFramed(s.wire, file)
            && (|file| < 0x1_0000_0000 ==> s.wire == [Head([]), Body(file)])
  {
    hide C.Chunk, Framing, WellFramed;
    var s := Fresh(false, zlib);
    RunOne(s, gz, Sendfile(Some(file), true, true));
    SendfileCommits(s, gz, file);
    var t := Step(s, gz, Sendfile(Some(file), true, true));
    LengthFraming(t, |file|);
    AsIntIs(|file|);
    assert Flatten([file]) == file;
  }

  /** An OPTIONS reply with a write says length zero and chunked at once. */
  lemma OptionsWithBody(gz: seq<Byte> -> seq<Byte>, zlib: seq<Byte>, data: Text)
    requires data != []
    ensures var s := Run(Fresh(true, zlib), gz, [Write(Some(data), true, true), End(Some([]), true)]);
            && !s.live && s.content == [data] && s.wire != [] && s.wire[0] == Head([Length(0), Encoded])
            && !WellFramed(s.wire, data)
  {
    hide C.Chunk, WellFramed;
    var a, b := Write(Some(data), true, true), End(Some([]), true);
    var s := Fresh(true, zlib);
    var t := Step(s, gz, a);
    assert Framing(s.(chunk := true), -1) == [Length(0), Encoded];
    var u := Step(t, gz, b);
    assert [a, b][1..] == [b] && [b][1..] == [];
    assert Run(s, gz, [a, b]) == Run(t, gz, [b]) == Run(u, gz, []) == u;
    TwoFieldsNotWellFramed(u.wire, data);
  }

  lemma TwoFieldsNotWellFramed(wire: seq<Piece>, content: seq<Byte>)
    requires wire != [] && wire[0].Head? && |wire[0].fields| != 1
    ensures !WellFramed(wire, content)
  {
  }

  // ------------------------------------------------------------------ the object

  /** The response object. Each method returns what the call returns. */
  class Response {
    const options: bool
    const gz: seq<Byte> -> seq<Byte>
    var userLength: bool
    var userEncoding: bool
    var live: bool
    var sendHeader: bool
    var chunk: bool
    var gzip: bool
    var zlib: seq<Byte>
    var wire: seq<Piece>
    ghost var content: seq<seq<Byte>>

    ghost function View(): Context
      reads this
    {
      Context(options, userLength, userEncoding, live, sendHeader, chunk, gzip, zlib, false, wire, content)
    }

    ghost predicate Valid()
      reads this
    {
      live ==> sendHeader == chunk
    }

    constructor (options: bool, gz: seq<Byte> -> seq<Byte>, zlib: seq<Byte>)
      ensures Valid() && View() == Fresh(options, zlib) && this.gz == gz
    {
      this.options, this.gz, this.zlib := options, gz, zlib;
      userLength, userEncoding := false, false;
      live, sendHeader, chunk, gzip, wire, content := true, false, false, false, [], [];
    }

    /** http_build_header, its assertion being the precondition. */
    method BuildHeader(length: int) returns (head: Piece)
      requires !sendHeader
      modifies this`sendHeader
      ensures sendHeader && head == Head(Framing(View(), length))
    {
      hide AsInt;
      var fields := [];
      if userLength { fields := fields + [UserLength]; }
      if userEncoding { fields := fields + [UserEncoding]; }
      assert fields == (if userLength then [UserLength] else []) + (if userEncoding then [UserEncoding] else []);
      ghost var user := fields;
      if options {
        fields := fields + [Length(0)];
      } else if !userLength && length >= 0 {
        fields := fields + [Length(if gzip then AsInt(|zlib|) else length)];
      }
      assert fields == user + (if options then [Length(0)]
                               else if !userLength && length >= 0 then [Length(if gzip then AsInt(|zlib|) else length)]
                               else []);
      if chunk { fields := fields + [Encoded]; }
      sendHeader := true;
      head := Head(fields);
    }

    method Free()
      modifies this`live, this`sendHeader, this`gzip
      ensures View() == Freed(old(View()))
    {
      live, sendHeader, gzip := false, false, false;
    }

    /** The first half of write: make sure the header has gone out. */
    method StartChunks(headOk: bool) returns (ok: bool)
      requires Valid() && live
      modifies this`chunk, this`sendHeader, this`wire
      ensures Valid() && ok == (old(sendHeader) || headOk)
      ensures !ok ==> View() == old(View()).(chunk := false)
      ensures ok && old(sendHeader) ==> View() == old(View())
      ensures ok && !old(sendHeader) ==>
                var c := old(View()).(chunk := true);
                View() == c.(sendHeader := true, wire := c.wire + [Head(Framing(c, -1))])
    {
      hide Framing;
      if !sendHeader {
        chunk := true;
        var head := BuildHeader(-1);
        FramingIgnoresFlag(View().(sendHeader := false), -1);
        if !headOk {
          chunk, sendHeader := false, false;
          return false;
        }
        wire := wire + [head];
      }
      return true;
    }

    method Write(data: Option<Text>, headOk: bool, bodyOk: bool) returns (ok: bool)
      requires Valid()
      modifies this
      ensures Valid() && View() == OnWrite(old(View()), gz, data, headOk, bodyOk)
      ensures ok <==> old(live) && (old(sendHeader) || headOk) && bodyOk && data.Some? && data.value != []
    {
      hide Framing, C.Chunk, C.Hex;
      if !live { return false; }
      var started := StartChunks(headOk);
      if !started { return false; }
      if data.None? || data.value == [] { return false; }
      var payload := data.value;
      if gzip {
        zlib := gz(data.value);
        payload := zlib;
      }
      var hex := C.Dec2Hex(|payload|);
      var buffer := hex + C.CRLF + payload + C.CRLF;
      ChunkIs(payload, buffer, hex);
      if bodyOk {
        wire, content := wire + [Body(buffer)], content + [payload];
      }
      return bodyOk;
    }

    method End(data: Option<Text>, sent: bool) returns (ok: bool)
      requires Valid()
      modifies this
      ensures Valid() && View() == OnEnd(old(View()), gz, data, sent)
      ensures (ok <==> old(live) && sent && data.Some?) && (ok ==> !live)
    {
      hide Framing, C.Chunk;
      if data.None? || !live { return false; }
      if chunk {
        if !sent { return false; }
        wire := wire + [Body(C.LAST)];
        chunk := false;
      } else {
        var body := data.value;
        if gzip {
          if body == [] { gzip := false; } else { zlib := gz(body); }
        }
        var head := BuildHeader(|body|);
        FramingIgnoresFlag(View().(sendHeader := false), |body|);
        var payload := if gzip then zlib else body;
        if !sent {
          sendHeader := false;
          return false;
        }
        wire, content := wire + [head, Body(payload)], content + [payload];
      }
      Free();
      return true;
    }

    method Sendfile(file: Option<seq<Byte>>, headOk: bool, bodyOk: bool) returns (ok: bool)
      requires Valid()
      modifies this
      ensures Valid() && View() == OnSendfile(old(View()), file, headOk, bodyOk)
      ensures ok <==> old(live) && !old(chunk) && file.Some? && file.value != [] && headOk && bodyOk
      ensures ok ==> !live
    {
      hide Framing, C.Chunk;
      if !live || chunk || file.None? || file.value == [] { return false; }
      var size := AsInt(|file.value|);
      var head := BuildHeader(size);
      FramingIgnoresFlag(View().(sendHeader := false), size);
      if !headOk {
        sendHeader := false;
        return false;
      }
      wire := wire + [head];
      if !bodyOk {
        sendHeader := false;
        return false;
      }
      wire, content := wire + [Body(file.value)], content + [file.value];
      Free();
      return true;
    }

    method EnableGzip() returns (ok: bool)
      requires Valid()
      modifies this`gzip
      ensures Valid() && View() == OnGzip(old(View()))
      ensures (ok <==> old(live) && !old(sendHeader)) && (gzip <==> old(gzip) || ok)
    {
      if !live || sendHeader { return false; }
      gzip := true;
      return true;
    }
  }

  lemma FramingIgnoresFlag(s: Context, length: int)
    ensures Framing(s.(sendHeader := true), length) == Framing(s, length)
  {
  }

  lemma ChunkIs(b: seq<Byte>, buffer: seq<Byte>, hex: seq<Byte>)
    requires hex == C.Hex(|b|) && buffer == hex + C.CRLF + b + C.CRLF
    ensures buffer == C.Chunk(b)
  {
  }
}
