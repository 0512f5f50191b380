/**
  * Column definition packets, on values: what the decoder of swoole_mysql.c makes of them, and an
  * encoder that it inverts.
  */
module MysqlField {
  import opened Options
  import opened Bytes
  import opened MysqlWire

  /** A decoded column. `strings` holds catalog, db, table, org_table, name and
      org_name, in that order. */
  datatype Field = Field(
    strings: seq<seq<Byte>>,
    charset: nat, width: nat, ctype: Byte, flags: nat, decimals: nat,
    def: Option<seq<Byte>>)

  const STRINGS: nat := 6
  const NAME: nat := 4
  const FIXED: nat := 13

  datatype FieldResult =
    | FieldOk(field: Field)
    | FieldErr(code: nat)
    | FieldWild

  // ------------------------------------------------------- the value of a packet

  datatype Spans =
    | Spans(spans: seq<Span>, next: nat)
    | SpansErr(code: nat)
    | SpansWild

  ghost predicate SpansWithin(spans: seq<Span>, lo: nat, hi: nat) {
    forall k :: 0 <= k < |spans| ==>
      spans[k].Span? && lo < spans[k].start && spans[k].start + spans[k].size <= hi
  }

  function ReadSpans(p: seq<Byte>, i: nat, k: nat): (r: Spans)
    requires i <= |p|
    ensures r.Spans? ==> |r.spans| == k && i <= r.next <= |p| && SpansWithin(r.spans, i, r.next)
    decreases k
  {
    if k == 0 then Spans([], i)
    else
      match ReadSpan(p, i)
      case SpanErr(code) => SpansErr(code)
      case SpanWild => SpansWild
      case Span(start, size, nul) =>
        match ReadSpans(p, start + size, k - 1)
        case Spans(rest, next) => Spans([Span(start, size, nul)] + rest, next)
        case other => other
  }

  function Slices(p: seq<Byte>, spans: seq<Span>): (r: seq<seq<Byte>>)
    requires SpansWithin(spans, 0, |p|)
    ensures |r| == |spans|
    ensures forall k :: 0 <= k < |r| ==> r[k] == p[spans[k].start..spans[k].start + spans[k].size]
  {
    seq(|spans|, k requires 0 <= k < |spans| => p[spans[k].start..spans[k].start + spans[k].size])
  }

  /** A `char` assigned to a 32-bit unsigned field. */
  function SignedChar(b: Byte): nat {
    if b < 128 then b else TWO32 - 256 + b
  }

  /** The fixed part at `i`. `flags` reads three bytes and steps over two, so its
      third byte is the one that `decimals` reads again. */
  function FixedPart(p: seq<Byte>, i: nat, strings: seq<seq<Byte>>, def: Option<seq<Byte>>): Field
    requires i + FIXED <= |p|
  {
    Field(strings, Le(p[i + 1..i + 3]), Le(p[i + 3..i + 7]), p[i + 7],
          Le(p[i + 8..i + 11]), SignedChar(p[i + 10]), def)
  }

  function DecodeField(p: seq<Byte>): (r: FieldResult)
    ensures r.FieldOk? ==> |r.field.strings| == STRINGS
  {
    match ReadSpans(p, 0, STRINGS)
    case SpansErr(code) => FieldErr(code)
    case SpansWild => FieldWild
    case Spans(spans, i) =>
      var strings := Slices(p, spans);
      if i + FIXED > |p| then FieldErr(ERR_LEN_OVER_BUFFER)
      else if |p| - (i + FIXED) == 0 then FieldOk(FixedPart(p, i, strings, None))
      else
        match ReadSpan(p, i + FIXED)
        case SpanErr(code) => FieldErr(code)
        case SpanWild => FieldWild
        case Span(start, size, _) => FieldOk(FixedPart(p, i, strings, Some(p[start..start + size])))
  }

  // --------------------------------------------------------------- the encoder

  datatype ColumnDef = ColumnDef(
    catalog: seq<Byte>, db: seq<Byte>, table: seq<Byte>, orgTable: seq<Byte>, name: seq<Byte>, orgName: seq<Byte>,
    filler: Byte, charset: nat, width: nat, ctype: Byte, flags: nat, decimals: Byte, tail: seq<Byte>,
    def: Option<seq<Byte>>)
  {
    ghost predicate Valid() {
      charset < TWO16 && width < TWO32 && flags < TWO16 && |tail| == 2
    }

    /** The strings in the order in which they are sent. */
    function Strings(): seq<seq<Byte>> {
      [catalog, db, table, orgTable, name, orgName]
    }
  }

  function WriteStrings(ss: seq<seq<Byte>>): seq<Byte> {
    if ss == [] then [] else WriteString(ss[0]) + WriteStrings(ss[1..])
  }

  function WriteFixed(c: ColumnDef): (r: seq<Byte>)
    requires c.Valid()
    ensures |r| == FIXED
  {
    [c.filler] + LeBytes(c.charset, 2) + LeBytes(c.width, 4) + [c.ctype] +
    LeBytes(c.flags, 2) + [c.decimals] + c.tail
  }

  function WriteDefault(def: Option<seq<Byte>>): seq<Byte> {
    if def.Some? then WriteString(def.value) else []
  }

  function EncodeField(c: ColumnDef): seq<Byte>
    requires c.Valid()
  {
    WriteStrings(c.Strings()) + WriteFixed(c) + WriteDefault(c.def)
  }

  /** What a client sees of a column definition. */
  function Decoded(c: ColumnDef): Field {
    Field(c.Strings(), c.charset, c.width, c.ctype, c.flags + TWO16 * c.decimals, SignedChar(c.decimals), c.def)
  }

  lemma {:induction false} SpansRoundTrip(p: seq<Byte>, i: nat, ss: seq<seq<Byte>>)
    requires At(p, i, WriteStrings(ss)) && |p| < TWO64
    ensures var r := ReadSpans(p, i, |ss|);
            && r.Spans? && r.next == i + |WriteStrings(ss)|
            && Slices(p, r.spans) == ss
    decreases |ss|
  {
    hide ReadSpan, WriteLcb, WriteString, At, Slices;
    if ss != [] {
      var w := WriteString(ss[0]);
      AtSplit(p, i, w, WriteStrings(ss[1..]));
      SpanRoundTrip(p, i, ss[0]);
      SpansRoundTrip(p, i + |w|, ss[1..]);
      AtTail(p, i + |w| - |ss[0]|, ss[0]);
      var first, rest := ReadSpan(p, i), ReadSpans(p, i + |w|, |ss| - 1);
      assert ReadSpans(p, i, |ss|) == Spans([first] + rest.spans, rest.next);
      SlicesCons(p, first, rest.spans);
      assert [ss[0]] + ss[1..] == ss;
      assert p[first.start..first.start + first.size] == ss[0];
    } else {
      SlicesNil(p);
    }
  }

  lemma SlicesNil(p: seq<Byte>)
    ensures SpansWithin([], 0, |p|) && Slices(p, []) == []
  {
  }

  lemma SlicesCons(p: seq<Byte>, d: Span, spans: seq<Span>)
    requires d.Span? && 0 < d.start && d.start + d.size <= |p| && SpansWithin(spans, 0, |p|)
    ensures SpansWithin([d] + spans, 0, |p|)
    ensures Slices(p, [d] + spans) == [p[d.start..d.start + d.size]] + Slices(p, spans)
  {
  }

  lemma FixedRoundTrip(pre: seq<Byte>, c: ColumnDef, post: seq<Byte>, strings: seq<seq<Byte>>)
    requires c.Valid() && strings == c.Strings()
    ensures FixedPart(pre + WriteFixed(c) + post, |pre|, strings, c.def) == Decoded(c)
  {
    PowersOf256();
    var p := pre + WriteFixed(c) + post;
    var i := |pre|;
    var f := WriteFixed(c);
    assert forall a, b :: 0 <= a <= b <= FIXED ==> p[i + a..i + b] == f[a..b];
    assert p[i + 1..i + 3] == LeBytes(c.charset, 2);
    assert p[i + 3..i + 7] == LeBytes(c.width, 4);
    assert p[i + 8..i + 11] == LeBytes(c.flags, 2) + [c.decimals];
    LeOfLeBytes(c.charset, 2);
    LeOfLeBytes(c.width, 4);
    LeOfLeBytes(c.flags, 2);
    LeAppend2(LeBytes(c.flags, 2), c.decimals);
  }

  lemma LeAppend2(s: seq<Byte>, b: Byte)
    requires |s| == 2
    ensures Le(s + [b]) == Le(s) + TWO16 * b
  {
    var t := s + [b];
    assert t[1..] == [s[1], b] && t[1..][1..] == [b] && s[1..] == [s[1]];
    assert Le([b]) == b && Le([s[1]]) == s[1];
  }

  /** Decoding an encoded column definition gives back the definition. */
  lemma FieldRoundTrip(c: ColumnDef)
    requires c.Valid() && |EncodeField(c)| < TWO24
    ensures DecodeField(EncodeField(c)) == FieldOk(Decoded(c))
  {
    hide ReadSpans, WriteStrings, WriteFixed, WriteString, ReadSpan, FixedPart, Slices, Decoded;
    var p := EncodeField(c);
    var w, f, d := WriteStrings(c.Strings()), WriteFixed(c), WriteDefault(c.def);
    var r := ReadSpans(p, 0, STRINGS);
    assert r.Spans? && r.next == |w| && Slices(p, r.spans) == c.Strings() by {
      assert p[0..|w|] == w;
      SpansRoundTrip(p, 0, c.Strings());
    }
    assert FixedPart(p, |w|, c.Strings(), c.def) == Decoded(c) by {
      FixedRoundTrip(w, c, d, c.Strings());
    }
    if c.def.Some? {
      var s := ReadSpan(p, |w| + FIXED);
      assert s.Span? && p[s.start..s.start + s.size] == c.def.value by {
        assert p[|w| + FIXED..|p|] == d;
        SpanRoundTrip(p, |w| + FIXED, c.def.value);
      }
    }
  }
}
