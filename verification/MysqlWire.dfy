/**
  * The MySQL text result set on the wire: length-encoded integers, column
  * definitions, rows, and the packets that carry them. Decoders follow
  * swoole_mysql.c; encoders follow the MySQL Client/Server Protocol and are the
  * reference the decoders are checked against.
  */
module MysqlWire {
  import opened Bytes

  // The error codes of mysql_error_code that the decoders return, negated.
  const ERR_BAD_LCB: nat := 17
  const ERR_LEN_OVER_BUFFER: nat := 18

  const TWO16: nat := 65536
  const TWO24: nat := 16777216
  const TWO32: nat := 4294967296
  const TWO64: nat := 18446744073709551616

  // --------------------------------------------------------------- integers

  datatype Lcb =
    | ShortLcb
    | Lcb(value: nat, nul: bool, used: nat)

  /** mysql_lcb_ll on the bytes that are left. The 0xfd form asks for one byte
      more than it uses, as the code does. */
  function ReadLcb(m: seq<Byte>): (r: Lcb)
    ensures r.Lcb? ==> 1 <= r.used <= |m| && r.value < TWO64
  {
    PowersOf256();
    if |m| < 1 then ShortLcb
    else if m[0] == 251 then Lcb(0, true, 1)
    else if m[0] == 252 then
      if |m| < 3 then ShortLcb else LeBound(m[1..3]); Lcb(Le(m[1..3]), false, 3)
    else if m[0] == 253 then
      if |m| < 5 then ShortLcb else LeBound(m[1..4]); Lcb(Le(m[1..4]), false, 4)
    else if m[0] == 254 then
      if |m| < 9 then ShortLcb else LeBound(m[1..9]); Lcb(Le(m[1..9]), false, 9)
    else Lcb(m[0], false, 1)
  }

  /** The shortest length-encoded integer for `n`. */
  function WriteLcb(n: nat): (s: seq<Byte>)
    ensures 1 <= |s| <= 9
    ensures n < TWO24 ==> s[0] < 254 && s[0] != 251
    ensures n > 0 ==> s[0] > 0
  {
    if n < 251 then [n]
    else if n < TWO16 then [252] + LeBytes(n, 2)
    else if n < TWO24 then [253] + LeBytes(n, 3)
    else [254] + LeBytes(n, 8)
  }

  lemma PowersOf256()
    ensures Pow256(2) == TWO16 && Pow256(3) == TWO24 && Pow256(4) == TWO32 && Pow256(8) == TWO64
  {
    assert Pow256(4) == 256 * Pow256(3) && Pow256(3) == 256 * Pow256(2);
    assert Pow256(8) == 256 * Pow256(7) && Pow256(7) == 256 * Pow256(6) && Pow256(6) == 256 * Pow256(5);
  }

  /** The integer codec round-trips in front of any bytes, except that a 3-byte
      integer must not be the last thing in the buffer. */
  lemma LcbRoundTrip(n: nat, rest: seq<Byte>)
    requires n < TWO64
    ensures ReadLcb(WriteLcb(n) + rest) == Lcb(n, false, |WriteLcb(n)|)
            <==> (TWO16 <= n < TWO24 ==> rest != [])
  {
    PowersOf256();
    var m := WriteLcb(n) + rest;
    if n < 251 {
    } else if n < TWO16 {
      LeOfLeBytes(n, 2);
      assert m[1..3] == LeBytes(n, 2);
    } else if n < TWO24 {
      LeOfLeBytes(n, 3);
      assert m[1..4] == LeBytes(n, 3);
    } else {
      LeOfLeBytes(n, 8);
      assert m[1..9] == LeBytes(n, 8);
    }
  }

  /** A decoded integer does not change when more bytes arrive behind it. */
  lemma LcbStable(m: seq<Byte>, more: seq<Byte>)
    ensures ReadLcb(m).Lcb? ==> ReadLcb(m + more) == ReadLcb(m)
  {
    var r := ReadLcb(m);
    if r.Lcb? {
      assert (m + more)[1..r.used] == m[1..r.used];
    }
  }

  // ---------------------------------------------------- length-encoded strings

  datatype Span =
    | Span(start: nat, size: nat, nul: bool)
    | SpanErr(code: nat)
    | SpanWild   // `i + size` wrapped around 2^64 and passed the length check

  /** One length-encoded string of the packet `p` at `i`: where its bytes are. */
  function ReadSpan(p: seq<Byte>, i: nat): (r: Span)
    requires i <= |p|
    ensures r.Span? ==> i < r.start && r.start + r.size <= |p|
    ensures r.SpanErr? ==> r.code == if ReadLcb(p[i..]).ShortLcb? then 17 else 18
  {
    var l := ReadLcb(p[i..]);
    if l.ShortLcb? then SpanErr(ERR_BAD_LCB)
    else
      var start := i + l.used;
      if start + l.value >= TWO64 then SpanWild
      else if start + l.value > |p| then SpanErr(ERR_LEN_OVER_BUFFER)
      else Span(start, l.value, l.nul)
  }

  function WriteString(s: seq<Byte>): (r: seq<Byte>)
    ensures |r| >= 1 + |s|
  {
    WriteLcb(|s|) + s
  }

  /** `w` stands in `p` at `i`. */
  predicate At(p: seq<Byte>, i: nat, w: seq<Byte>) {
    i + |w| <= |p| && p[i..i + |w|] == w
  }

  lemma AtSplit(p: seq<Byte>, i: nat, a: seq<Byte>, b: seq<Byte>)
    ensures At(p, i, a + b) <==> At(p, i, a) && At(p, i + |a|, b)
  {
    if At(p, i, a + b) {
      assert p[i..i + |a|] == (a + b)[..|a|];
      assert p[i + |a|..i + |a + b|] == (a + b)[|a|..];
    }
    if At(p, i, a) && At(p, i + |a|, b) {
      assert p[i..i + |a + b|] == p[i..i + |a|] + p[i + |a|..i + |a| + |b|];
    }
  }

  lemma AtTail(p: seq<Byte>, i: nat, w: seq<Byte>)
    requires At(p, i, w)
    ensures i + |w| <= |p| && p[i..] == w + p[i + |w|..]
  {
  }

  lemma SpanRoundTrip(p: seq<Byte>, i: nat, s: seq<Byte>)
    requires At(p, i, WriteString(s)) && |p| < TWO64
    ensures ReadSpan(p, i) == Span(i + |WriteString(s)| - |s|, |s|, false)
    ensures At(p, i + |WriteString(s)| - |s|, s)
  {
    hide WriteLcb, ReadLcb, At;
    var w := WriteLcb(|s|);
    AtSplit(p, i, w, s);
    AtTail(p, i, w);
    AtTail(p, i + |w|, s);
    LcbRoundTrip(|s|, p[i + |w|..]);
  }
}
