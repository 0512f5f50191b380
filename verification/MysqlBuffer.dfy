/**
  * The column decoder of swoole_mysql.c as it runs: it slides every string of the
  * packet down over its own length bytes and puts a NUL behind it, inside the
  * receive buffer. Columns keep positions in that buffer, not copies.
  */
module MysqlBuffer {
  import opened Options
  import opened Bytes
  import opened MysqlWire
  import opened MysqlField

  /** A `char *` into the buffer, and its length. */
  datatype Str = Str(off: nat, len: nat)

  datatype Column = Column(
    strings: seq<Str>,
    charset: nat, width: nat, ctype: Byte, flags: nat, decimals: nat,
    def: Option<Str>)

  /** `s` lies in `mem[lo..hi]` together with the NUL that ends it. */
  ghost predicate Intact(mem: seq<Byte>, s: Str, lo: nat, hi: nat) {
    lo <= s.off && s.off + s.len < hi <= |mem| && mem[s.off + s.len] == 0
  }

  ghost predicate AllIntact(mem: seq<Byte>, ss: seq<Str>, lo: nat, hi: nat) {
    forall k :: 0 <= k < |ss| ==> Intact(mem, ss[k], lo, hi)
  }

  ghost predicate ColumnIntact(mem: seq<Byte>, c: Column, lo: nat, hi: nat) {
    && |c.strings| == STRINGS && AllIntact(mem, c.strings, lo, hi)
    && (c.def.Some? ==> Intact(mem, c.def.value, lo, hi))
  }

  ghost function Held(mem: seq<Byte>, s: Str): seq<Byte>
    requires s.off + s.len <= |mem|
  {
    mem[s.off..s.off + s.len]
  }

  ghost function StringsAt(mem: seq<Byte>, ss: seq<Str>): (r: seq<seq<Byte>>)
    requires AllIntact(mem, ss, 0, |mem|)
    ensures |r| == |ss|
  {
    seq(|ss|, k requires 0 <= k < |ss| => assert Intact(mem, ss[k], 0, |mem|); Held(mem, ss[k]))
  }

  /** The column as a value. */
  ghost function FieldAt(mem: seq<Byte>, c: Column): Field
    requires ColumnIntact(mem, c, 0, |mem|)
  {
    Field(StringsAt(mem, c.strings), c.charset, c.width, c.ctype, c.flags, c.decimals,
          if c.def.Some? then Some(Held(mem, c.def.value)) else None)
  }

  /** memmove(wh, &buf[i], size); wh[size] = '\0', with `wh` below `i`. */
  method MoveDown(str: array<Byte>, to: nat, from: nat, n: nat)
    requires to < from && from + n <= str.Length
    modifies str
    ensures Untouched(str[..], old(str[..]), to, to + n + 1)
    ensures str[to..to + n] == old(str[from..from + n]) && str[to + n] == 0
  {
    forall k | 0 <= k < n {
      str[to + k] := str[from + k];
    }
    str[to + n] := 0;
  }

  /** One length-encoded string: read it at `i`, move it to `wh`, terminate it. */
  method TakeString(str: array<Byte>, base: nat, len: nat, i: nat, wh: nat) returns (r: Span, s: Str)
    requires base + len <= str.Length && wh <= i <= len
    modifies str
    ensures r == ReadSpan(old(str[base..base + len]), i)
    ensures !r.Span? ==> str[..] == old(str[..])
    ensures r.Span? ==>
              && s == Str(base + wh, r.size)
              && wh + r.size < r.start + r.size <= len
              && Intact(str[..], s, base + wh, base + wh + r.size + 1)
              && Held(str[..], s) == old(str[base + r.start..base + r.start + r.size])
              && Untouched(str[..], old(str[..]), base + wh, base + wh + r.size + 1)
  {
    hide ReadSpan, Untouched;
    r := ReadSpan(str[base..base + len], i);
    s := Str(base + wh, 0);
    if r.Span? {
      s := Str(base + wh, r.size);
      MoveDown(str, base + wh, base + r.start, r.size);
    }
  }

  ghost function Prepend(done: seq<Span>, rest: Spans): Spans {
    match rest
    case Spans(spans, next) => Spans(done + spans, next)
    case other => other
  }

  lemma PrependStep(p: seq<Byte>, done: seq<Span>, i: nat, k: nat)
    requires i <= |p| && k > 0
    ensures var s := ReadSpan(p, i);
            && (s.SpanErr? ==> ReadSpans(p, i, k) == SpansErr(s.code))
            && (s.SpanWild? ==> ReadSpans(p, i, k) == SpansWild)
            && (s.Span? ==> Prepend(done, ReadSpans(p, i, k)) ==
                            Prepend(done + [s], ReadSpans(p, s.start + s.size, k - 1)))
  {
    hide ReadSpan;
    var s := ReadSpan(p, i);
    if s.Span? {
      var rest := ReadSpans(p, s.start + s.size, k - 1);
      if rest.Spans? {
        assert done + ([s] + rest.spans) == (done + [s]) + rest.spans;
      }
    }
  }

  lemma SpanOfSuffix(p: seq<Byte>, q: seq<Byte>, i: nat)
    requires |p| == |q| && i <= |p| && p[i..] == q[i..]
    ensures ReadSpan(p, i) == ReadSpan(q, i)
  {
  }

  /** The strings taken so far hold what the packet `p` held at `done`. */
  ghost predicate Taken(mem: seq<Byte>, ss: seq<Str>, p: seq<Byte>, done: seq<Span>, lo: nat, hi: nat) {
    && |ss| == |done| && AllIntact(mem, ss, lo, hi) && SpansWithin(done, 0, |p|)
    && forall k :: 0 <= k < |ss| ==>
         Intact(mem, ss[k], lo, hi) && Held(mem, ss[k]) == p[done[k].start..done[k].start + done[k].size]
  }

  lemma TakenSnoc(mem: seq<Byte>, mem': seq<Byte>, ss: seq<Str>, s: Str, p: seq<Byte>, done: seq<Span>, d: Span,
                  lo: nat, mid: nat, hi: nat)
    requires Taken(mem, ss, p, done, lo, mid)
    requires lo <= mid && Untouched(mem', mem, mid, hi)
    requires Intact(mem', s, mid, hi)
    requires d.Span? && 0 < d.start && d.start + d.size <= |p|
    requires Held(mem', s) == p[d.start..d.start + d.size]
    ensures Taken(mem', ss + [s], p, done + [d], lo, hi)
  {
    var ss', done' := ss + [s], done + [d];
    forall k | 0 <= k < |ss'|
      ensures Intact(mem', ss'[k], lo, hi)
      ensures Held(mem', ss'[k]) == p[done'[k].start..done'[k].start + done'[k].size]
    {
      if k < |ss| {
        assert Intact(mem, ss[k], lo, mid);
        SameBelow(mem, mem', ss[k], lo, mid, hi);
      }
    }
  }

  /** What lies below `mid` is not disturbed by changes from `mid` on. */
  lemma SameBelow(mem: seq<Byte>, mem': seq<Byte>, s: Str, lo: nat, mid: nat, hi: nat)
    requires Intact(mem, s, lo, mid) && Untouched(mem', mem, mid, hi)
    ensures Intact(mem', s, lo, mid) && Held(mem', s) == Held(mem, s)
  {
    UntouchedSlice(mem', mem, mid, hi, s.off, s.off + s.len);
    UntouchedSlice(mem', mem, mid, hi, s.off + s.len, s.off + s.len + 1);
    assert mem'[s.off + s.len..s.off + s.len + 1][0] == mem[s.off + s.len..s.off + s.len + 1][0];
  }

  /** The state of the decoder after `k` strings: `i` is read, `wh` is written. */
  ghost predicate Progress(
    mem: seq<Byte>, was: seq<Byte>, base: nat, len: nat, strings: seq<Str>, done: seq<Span>, i: nat, wh: nat)
  {
    && |mem| == |was| && base + len <= |mem| && wh <= i <= len && |done| <= STRINGS
    && Taken(mem, strings, was[base..base + len], done, base, base + wh)
    && Untouched(mem, was, base, base + wh)
    && ReadSpans(was[base..base + len], 0, STRINGS)
       == Prepend(done, ReadSpans(was[base..base + len], i, STRINGS - |done|))
  }

  lemma ProgressStep(
    mem: seq<Byte>, mem': seq<Byte>, was: seq<Byte>, base: nat, len: nat,
    strings: seq<Str>, done: seq<Span>, i: nat, wh: nat, d: Span, s: Str)
    requires Progress(mem, was, base, len, strings, done, i, wh) && |done| < STRINGS
    requires d == ReadSpan(mem[base..base + len], i)
    requires d.Span? ==>
               && s == Str(base + wh, d.size)
               && Intact(mem', s, base + wh, base + wh + d.size + 1)
               && Held(mem', s) == mem[base + d.start..base + d.start + d.size]
               && Untouched(mem', mem, base + wh, base + wh + d.size + 1)
    ensures d == ReadSpan(was[base..base + len], i)
    ensures d.SpanErr? ==> ReadSpans(was[base..base + len], 0, STRINGS) == SpansErr(d.code)
    ensures d.SpanWild? ==> ReadSpans(was[base..base + len], 0, STRINGS) == SpansWild
    ensures d.Span? ==>
              Progress(mem', was, base, len, strings + [s], done + [d], d.start + d.size, wh + d.size + 1)
  {
    hide ReadSpan, ReadSpans, Intact, Taken, Held, Untouched;
    var p, q := was[base..base + len], mem[base..base + len];
    assert q[i..] == p[i..] by {
      UntouchedSlice(mem, was, base, base + wh, base + i, base + len);
      assert q[i..] == mem[base + i..base + len] && p[i..] == was[base + i..base + len];
    }
    SpanOfSuffix(p, q, i);
    PrependStep(p, done, i, STRINGS - |done|);
    if d.Span? {
      assert mem[base + d.start..base + d.start + d.size] == p[d.start..d.start + d.size] by {
        UntouchedSlice(mem, was, base, base + wh, base + d.start, base + d.start + d.size);
        SliceOfSlice(was, base, base + len, d.start, d.start + d.size);
      }
      TakenSnoc(mem, mem', strings, s, p, done, d, base, base + wh, base + wh + d.size + 1);
      UntouchedTrans(mem', mem, was, base + wh, base + wh + d.size + 1, base, base + wh, base + wh + d.size + 1);
      assert |mem'| == |mem| by { UntouchedSize(mem', mem, base + wh, base + wh + d.size + 1); }
    }
  }

  lemma UntouchedSize(now: seq<Byte>, was: seq<Byte>, lo: nat, hi: nat)
    requires Untouched(now, was, lo, hi)
    ensures |now| == |was| && lo <= hi <= |was|
  {
  }

  /** The strings lie one behind the other, each with its NUL, below `hi`. */
  ghost predicate InOrder(ss: seq<Str>, hi: nat) {
    && (forall j, k :: 0 <= j < k < |ss| ==> ss[j].off + ss[j].len < ss[k].off)
    && (forall k :: 0 <= k < |ss| ==> ss[k].off + ss[k].len < hi)
  }

  lemma InOrderSnoc(ss: seq<Str>, s: Str, hi: nat)
    requires InOrder(ss, s.off) && s.off + s.len < hi
    ensures InOrder(ss + [s], hi)
  {
  }

  /** The six strings at the head of a column packet, one after the other. */
  method TakeStrings(str: array<Byte>, base: nat, len: nat)
    returns (r: Spans, strings: seq<Str>, wh: nat)
    requires base + len <= str.Length
    modifies str
    ensures r == ReadSpans(old(str[base..base + len]), 0, STRINGS)
    ensures Untouched(str[..], old(str[..]), base, base + len)
    ensures r.Spans? ==> wh >= STRINGS && Progress(str[..], old(str[..]), base, len, strings, r.spans, r.next, wh)
    ensures r.Spans? ==> InOrder(strings, base + wh)
  {
    hide Progress, ReadSpan, Intact, InOrder;
    ghost var was := str[..];
    var done: seq<Span>, i, k := [], 0, 0;
    wh, strings := 0, [];
    ProgressStart(was, base, len);
    NoneInOrder(base);
    while k < STRINGS
      invariant 0 <= k == |done| <= STRINGS && k <= wh <= i <= len
      invariant Progress(str[..], was, base, len, strings, done, i, wh)
      invariant Untouched(str[..], was, base, base + len) && InOrder(strings, base + wh)
    {
      ghost var mem := str[..];
      assert mem[base..base + len] == str[base..base + len];
      var d, s := TakeString(str, base, len, i, wh);
      ProgressStep(mem, str[..], was, base, len, strings, done, i, wh, d, s);
      if d.SpanErr? {
        r := SpansErr(d.code);
        return;
      }
      if d.SpanWild? {
        r := SpansWild;
        return;
      }
      UntouchedTrans(str[..], mem, was, base + wh, base + wh + d.size + 1, base, base + len, base + len);
      InOrderSnoc(strings, s, base + wh + d.size + 1);
      strings, done := strings + [s], done + [d];
      wh, i, k := wh + d.size + 1, d.start + d.size, k + 1;
    }
    r := Spans(done, i);
    ProgressEnd(str[..], was, base, len, strings, done, i, wh);
  }

  lemma NoneInOrder(hi: nat)
    ensures InOrder([], hi)
  {
  }

  lemma ProgressStart(was: seq<Byte>, base: nat, len: nat)
    requires base + len <= |was|
    ensures Progress(was, was, base, len, [], [], 0, 0)
  {
    hide ReadSpans;
    var r := ReadSpans(was[base..base + len], 0, STRINGS);
    assert r.Spans? ==> [] + r.spans == r.spans;
  }

  lemma ProgressEnd(
    mem: seq<Byte>, was: seq<Byte>, base: nat, len: nat, strings: seq<Str>, done: seq<Span>, i: nat, wh: nat)
    requires Progress(mem, was, base, len, strings, done, i, wh) && |done| == STRINGS
    ensures ReadSpans(was[base..base + len], 0, STRINGS) == Spans(done, i)
  {
    assert done + [] == done;
  }

  lemma WiderIntact(mem: seq<Byte>, ss: seq<Str>, lo: nat, hi: nat, lo': nat, hi': nat)
    requires AllIntact(mem, ss, lo, hi) && lo' <= lo && hi <= hi' <= |mem|
    ensures AllIntact(mem, ss, lo', hi')
  {
  }

  lemma TakenIsSlices(mem: seq<Byte>, ss: seq<Str>, p: seq<Byte>, done: seq<Span>, lo: nat, hi: nat)
    requires Taken(mem, ss, p, done, lo, hi) && hi <= |mem|
    ensures AllIntact(mem, ss, 0, |mem|)
    ensures StringsAt(mem, ss) == Slices(p, done)
  {
    WiderIntact(mem, ss, lo, hi, 0, |mem|);
    var a, b := StringsAt(mem, ss), Slices(p, done);
    forall k | 0 <= k < |a| ensures a[k] == b[k] {
      assert Intact(mem, ss[k], lo, hi);
    }
  }

  lemma StillTaken(
    mem: seq<Byte>, mem': seq<Byte>, ss: seq<Str>, p: seq<Byte>, done: seq<Span>, lo: nat, mid: nat, hi: nat)
    requires Taken(mem, ss, p, done, lo, mid) && Untouched(mem', mem, mid, hi)
    ensures Taken(mem', ss, p, done, lo, mid)
  {
    forall k | 0 <= k < |ss|
      ensures Intact(mem', ss[k], lo, mid)
      ensures Held(mem', ss[k]) == p[done[k].start..done[k].start + done[k].size]
    {
      assert Intact(mem, ss[k], lo, mid);
      SameBelow(mem, mem', ss[k], lo, mid, hi);
    }
  }

  lemma FixedOfSuffix(p: seq<Byte>, q: seq<Byte>, i: nat)
    requires |p| == |q| && i + FIXED <= |p| && p[i..] == q[i..]
    ensures FixedPart(p, i, [], None) == FixedPart(q, i, [], None)
  {
    SliceOfSuffix(p, i, i + 1, i + 3);
    SliceOfSuffix(q, i, i + 1, i + 3);
    SliceOfSuffix(p, i, i + 3, i + 7);
    SliceOfSuffix(q, i, i + 3, i + 7);
    SliceOfSuffix(p, i, i + 8, i + 11);
    SliceOfSuffix(q, i, i + 8, i + 11);
    assert p[i..][7] == q[i..][7] && p[i..][10] == q[i..][10];
  }

  datatype ColumnResult =
    | ColumnOk(column: Column, used: nat)
    | ColumnErr(code: nat)
    | ColumnWild

  function WithNumbers(strings: seq<Str>, f: Field, def: Option<Str>): Column {
    Column(strings, f.charset, f.width, f.ctype, f.flags, f.decimals, def)
  }

  /** The packet after its strings: unchanged from `i` on. */
  lemma RestUnchanged(mem: seq<Byte>, was: seq<Byte>, base: nat, len: nat, i: nat, wh: nat)
    requires Untouched(mem, was, base, base + wh) && wh <= i <= len && base + len <= |was|
    ensures mem[base..base + len][i..] == was[base..base + len][i..]
  {
    UntouchedSlice(mem, was, base, base + wh, base + i, base + len);
    SliceOfSlice(mem, base, base + len, i, len);
    SliceOfSlice(was, base, base + len, i, len);
    var a, b := mem[base..base + len], was[base..base + len];
    assert a[i..] == a[i..len] && b[i..] == b[i..len];
  }

  /** The column that the decoder returns, checked against the value of the packet. */
  lemma ColumnDone(
    mem: seq<Byte>, was: seq<Byte>, base: nat, len: nat, strings: seq<Str>, spans: seq<Span>,
    i: nat, wh: nat, def: Option<Str>, d: Span)
    requires base + len <= |was| && |mem| == |was| && wh <= i && i + FIXED <= len
    requires ReadSpans(was[base..base + len], 0, STRINGS) == Spans(spans, i)
    requires Taken(mem, strings, was[base..base + len], spans, base, base + wh)
    requires i + FIXED < len ==> d == ReadSpan(was[base..base + len], i + FIXED)
    requires def.Some? <==> i + FIXED < len
    requires def.Some? ==>
               && d.Span?
               && Intact(mem, def.value, base + wh, base + len)
               && Held(mem, def.value) == was[base..base + len][d.start..d.start + d.size]
    ensures var c := WithNumbers(strings, FixedPart(was[base..base + len], i, [], None), def);
            && ColumnIntact(mem, c, base, base + len)
            && ColumnIntact(mem, c, 0, |mem|)
            && DecodeField(was[base..base + len]) == FieldOk(FieldAt(mem, c))
  {
    hide ReadSpans, ReadSpan;
    var p := was[base..base + len];
    TakenIsSlices(mem, strings, p, spans, base, base + wh);
    WiderIntact(mem, strings, base, base + wh, base, base + len);
  }

  /** mysql_decode_field. The strings end up, each followed by a NUL, in the part of the
      packet that has been read; nothing outside the packet changes; and they are the
      strings of the packet. */
  method DecodeInPlace(str: array<Byte>, base: nat, len: nat) returns (r: ColumnResult)
    requires base + len <= str.Length
    modifies str
    ensures Untouched(str[..], old(str[..]), base, base + len)
    ensures match DecodeField(old(str[base..base + len]))
            case FieldErr(code) => r == ColumnErr(code)
            case FieldWild => r == ColumnWild
            case FieldOk(f) =>
              && r.ColumnOk? && 0 < r.used <= len
              && ColumnIntact(str[..], r.column, base, base + len)
              && ColumnIntact(str[..], r.column, 0, str.Length)
              && FieldAt(str[..], r.column) == f
  {
    hide ReadSpan, ReadSpans, Taken, FixedPart, ColumnIntact, Untouched, FieldAt;
    ghost var was := str[..];
    ghost var p := str[base..base + len];
    assert was[base..base + len] == p;
    var head, strings, wh := TakeStrings(str, base, len);
    if head.SpansErr? { return ColumnErr(head.code); }
    if head.SpansWild? { return ColumnWild; }
    var i := head.next;
    if i + FIXED > len { return ColumnErr(ERR_LEN_OVER_BUFFER); }
    var numbers := FixedPart(str[base..base + len], i, [], None);
    ghost var mem := str[..];
    assert mem[base..base + len] == str[base..base + len];
    RestUnchanged(mem, was, base, len, i, wh);
    FixedOfSuffix(p, mem[base..base + len], i);
    if len - (i + FIXED) > 0 {
      SuffixOfSuffix(p, mem[base..base + len], i, i + FIXED);
      SpanOfSuffix(p, mem[base..base + len], i + FIXED);
      var d, s := TakeString(str, base, len, i + FIXED, wh);
      if d.SpanErr? { return ColumnErr(d.code); }
      if d.SpanWild? { return ColumnWild; }
      DefaultTaken(str[..], mem, was, base, len, strings, head.spans, i, wh, d, s);
      ColumnDone(str[..], was, base, len, strings, head.spans, i, wh, Some(s), d);
      r := ColumnOk(WithNumbers(strings, numbers, Some(s)), wh + d.size + 1);
    } else {
      ColumnDone(mem, was, base, len, strings, head.spans, i, wh, None, SpanWild);
      r := ColumnOk(WithNumbers(strings, numbers, None), wh);
    }
  }

  lemma SuffixOfSuffix(p: seq<Byte>, q: seq<Byte>, i: nat, j: nat)
    requires |p| == |q| && i <= j <= |p| && p[i..] == q[i..]
    ensures p[j..] == q[j..]
  {
    assert p[i..][j - i..] == p[j..] && q[i..][j - i..] == q[j..];
  }

  lemma DefaultTaken(
    mem': seq<Byte>, mem: seq<Byte>, was: seq<Byte>, base: nat, len: nat,
    strings: seq<Str>, spans: seq<Span>, i: nat, wh: nat, d: Span, s: Str)
    requires |mem'| == |mem| == |was| && base + len <= |was| && wh <= i && i + FIXED <= len
    requires Taken(mem, strings, was[base..base + len], spans, base, base + wh)
    requires Untouched(mem, was, base, base + wh)
    requires d.Span? && i + FIXED < d.start && d.start + d.size <= len && s == Str(base + wh, d.size)
    requires Intact(mem', s, base + wh, base + wh + d.size + 1)
    requires Held(mem', s) == mem[base + d.start..base + d.start + d.size]
    requires Untouched(mem', mem, base + wh, base + wh + d.size + 1)
    ensures Taken(mem', strings, was[base..base + len], spans, base, base + wh)
    ensures Intact(mem', s, base + wh, base + len)
    ensures Held(mem', s) == was[base..base + len][d.start..d.start + d.size]
    ensures Untouched(mem', was, base, base + len)
  {
    hide Taken;
    StillTaken(mem, mem', strings, was[base..base + len], spans, base, base + wh, base + wh + d.size + 1);
    UntouchedSlice(mem, was, base, base + wh, base + d.start, base + d.start + d.size);
    SliceOfSlice(was, base, base + len, d.start, d.start + d.size);
    UntouchedTrans(mem', mem, was, base + wh, base + wh + d.size + 1, base, base + wh, base + len);
  }
}
