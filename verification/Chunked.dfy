/** Chunked transfer coding (section 4.1 of RFC 7230): the writer of the HTTP server,
    and a reader to check it against. */
module Chunked {
  import opened Options
  import opened Bytes

  const CRLF: seq<Byte> := [13, 10]

  function Digit(d: nat): Byte
    requires d < 16
  {
    if d < 10 then 48 + d else 87 + d
  }

  function DigitValue(b: Byte): Option<nat> {
    if 48 <= b <= 57 then Some(b - 48) else if 97 <= b <= 102 then Some(b - 87) else None
  }

  function Hex(n: nat): (s: seq<Byte>)
    ensures s != []
  {
    if n < 16 then [Digit(n)] else Hex(n / 16) + [Digit(n % 16)]
  }

  /** swoole_dec2hex in base 16: digits from the last to the first. */
  method Dec2Hex(n: nat) returns (s: seq<Byte>)
    ensures s == Hex(n)
  {
    s := [Digit(n % 16)];
    var value: nat := n / 16;
    while value != 0
      invariant Hex(n) == if value == 0 then s else Hex(value) + s
    {
      assert Hex(value) + s == (if value < 16 then [] else Hex(value / 16)) + ([Digit(value % 16)] + s);
      s := [Digit(value % 16)] + s;
      value := value / 16;
    }
  }

  /** Read digits from `i` on; the value so far is `acc`. */
  function ReadHex(s: seq<Byte>, i: nat, acc: nat): (r: (nat, nat))
    ensures r.1 >= i
    decreases |s| - i
  {
    if i < |s| && DigitValue(s[i]).Some? then ReadHex(s, i + 1, 16 * acc + DigitValue(s[i]).value) else (acc, i)
  }

  lemma {:induction false} ReadHexOfHex(n: nat, t: seq<Byte>)
    ensures ReadHex(Hex(n) + t, 0, 0) == ReadHex(Hex(n) + t, |Hex(n)|, n)
    decreases n
  {
    var s := Hex(n) + t;
    if n < 16 {
      assert DigitValue(s[0]) == Some(n);
    } else {
      var d := Digit(n % 16);
      assert DigitValue(d) == Some(n % 16);
      ReadHexOfHex(n / 16, [d] + t);
      assert s == Hex(n / 16) + ([d] + t);
      assert s[|Hex(n / 16)|] == d;
    }
  }

  function Chunk(b: seq<Byte>): seq<Byte> {
    Hex(|b|) + CRLF + b + CRLF
  }

  const LAST: seq<Byte> := [48, 13, 10, 13, 10]

  /** The body that a chunked message carries; nothing may follow it. */
  function Decode(s: seq<Byte>): Option<seq<Byte>>
    decreases |s|
  {
    var (n, i) := ReadHex(s, 0, 0);
    if i == 0 || i + 4 > |s| || s[i..i + 2] != CRLF then None
    else if n == 0 then
      if s[i + 2..] == CRLF then Some([]) else None
    else if i + 4 + n > |s| || s[i + 2 + n..i + 4 + n] != CRLF then None
    else
      match Decode(s[i + 4 + n..])
      case None => None
      case Some(rest) => Some(s[i + 2..i + 2 + n] + rest)
  }

  lemma DecodeLast()
    ensures Decode(LAST) == Some([])
  {
    assert DigitValue(LAST[0]) == Some(0) && DigitValue(LAST[1]) == None;
    assert ReadHex(LAST, 0, 0) == ReadHex(LAST, 1, 0) == (0, 1);
    assert LAST[1..3] == CRLF && LAST[3..] == CRLF;
  }

  lemma ChunkParts(b: seq<Byte>, rest: seq<Byte>)
    ensures var s := Chunk(b) + rest;
            var i, n := |Hex(|b|)|, |b|;
            && i + 4 + n <= |s| && s[i] == 13 && s[i..i + 2] == CRLF
            && s[i + 2..i + 2 + n] == b && s[i + 2 + n..i + 4 + n] == CRLF && s[i + 4 + n..] == rest
  {
    hide Hex;
  }

  lemma DecodeChunk(b: seq<Byte>, rest: seq<Byte>)
    requires b != []
    ensures Decode(Chunk(b) + rest) ==
            match Decode(rest) case None => None case Some(t) => Some(b + t)
  {
    hide Hex, Chunk;
    var s := Chunk(b) + rest;
    ChunkParts(b, rest);
    HexFirst(b, rest);
  }

  lemma HexFirst(b: seq<Byte>, rest: seq<Byte>)
    ensures ReadHex(Chunk(b) + rest, 0, 0) == (|b|, |Hex(|b|)|)
  {
    hide Hex;
    var t := CRLF + b + CRLF + rest;
    ReadHexOfHex(|b|, t);
    assert Chunk(b) + rest == Hex(|b|) + t;
    assert DigitValue(13) == None;
  }

  function Chunks(bs: seq<seq<Byte>>): seq<Byte> {
    if bs == [] then [] else Chunk(bs[0]) + Chunks(bs[1..])
  }

  /** Chunks with the last chunk behind them carry the pieces, as long as none is empty. */
  lemma {:induction false} DecodeChunks(bs: seq<seq<Byte>>)
    requires forall k :: 0 <= k < |bs| ==> bs[k] != []
    ensures Decode(Chunks(bs) + LAST) == Some(Flatten(bs))
    decreases |bs|
  {
    hide Chunk, Decode;
    if bs == [] {
      DecodeLast();
      assert [] + LAST == LAST;
    } else {
      DecodeChunks(bs[1..]);
      DecodeChunk(bs[0], Chunks(bs[1..]) + LAST);
      assert Chunks(bs) + LAST == Chunk(bs[0]) + (Chunks(bs[1..]) + LAST);
    }
  }
}
