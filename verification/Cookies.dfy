/**
  * Cookies on their way from a swoole HTTP client to a swoole HTTP server: the printer
  * of the Cookie header and the scanner that reads it.
  */
module Cookies {
  import opened Options
  import opened Bytes

  const SPACE: Byte := 32
  const PERCENT: Byte := 37
  const PLUS: Byte := 43
  const SEMICOLON: Byte := 59
  const EQUALS: Byte := 61

  const KEYLEN: nat := 128    // SW_HTTP_COOKIE_KEYLEN
  const VALLEN: nat := 4096   // SW_HTTP_COOKIE_VALLEN

  // ------------------------------------------------------------------ URL coding

  predicate Plain(b: Byte) {
    48 <= b <= 57 || 65 <= b <= 90 || 97 <= b <= 122 || b == 45 || b == 46 || b == 95
  }

  function HexDigit(d: nat): Byte
    requires d < 16
  {
    if d < 10 then 48 + d else 55 + d
  }

  function HexValue(b: Byte): Option<nat> {
    if 48 <= b <= 57 then Some(b - 48)
    else if 65 <= b <= 70 then Some(b - 55)
    else if 97 <= b <= 102 then Some(b - 87)
    else None
  }

  function EncodeByte(b: Byte): seq<Byte> {
    if b == SPACE then [PLUS]
    else if Plain(b) then [b]
    else [PERCENT, HexDigit(b / 16), HexDigit(b % 16)]
  }

  /** php_url_encode. */
  function UrlEncode(s: seq<Byte>): seq<Byte> {
    if s == [] then [] else EncodeByte(s[0]) + UrlEncode(s[1..])
  }

  /** php_url_decode. */
  function UrlDecode(s: seq<Byte>): seq<Byte> {
    if s == [] then []
    else if s[0] == PLUS then [SPACE] + UrlDecode(s[1..])
    else if s[0] == PERCENT && |s| >= 3 && HexValue(s[1]).Some? && HexValue(s[2]).Some? then
      [16 * HexValue(s[1]).value + HexValue(s[2]).value] + UrlDecode(s[3..])
    else [s[0]] + UrlDecode(s[1..])
  }

  predicate Safe(s: seq<Byte>) {
    forall k :: 0 <= k < |s| ==> s[k] != 0 && s[k] != SEMICOLON && s[k] != EQUALS
  }

  lemma DecodeByte(b: Byte, rest: seq<Byte>)
    ensures UrlDecode(EncodeByte(b) + rest) == [b] + UrlDecode(rest)
    ensures Safe(EncodeByte(b)) && EncodeByte(b) != []
  {
    var e := EncodeByte(b) + rest;
    if b == SPACE || Plain(b) {
      assert e[1..] == rest;
    } else {
      assert e[3..] == rest;
      assert e[1] == HexDigit(b / 16) && e[2] == HexDigit(b % 16);
    }
  }

  lemma {:induction false} UrlRoundTrip(s: seq<Byte>)
    ensures UrlDecode(UrlEncode(s)) == s
    ensures Safe(UrlEncode(s)) && (UrlEncode(s) == [] <==> s == [])
    decreases |s|
  {
    hide EncodeByte;
    if s != [] {
      UrlRoundTrip(s[1..]);
      DecodeByte(s[0], UrlEncode(s[1..]));
    }
  }

  /** What encoding prints: letters, digits, and the characters of "-._+%". */
  lemma {:induction false} UrlAlphabet(s: seq<Byte>)
    ensures forall b <- UrlEncode(s) ::
              || 'a' as int <= b <= 'z' as int || 'A' as int <= b <= 'Z' as int || '0' as int <= b <= '9' as int
              || b in {'-' as int, '.' as int, '_' as int, '+' as int, '%' as int}
    decreases |s|
  {
    if s != [] { UrlAlphabet(s[1..]); }
  }

  /** An escape is read with digits of either case, and what is no escape stays as it is. */
  lemma UrlEscapes(x: Byte, y: Byte, rest: seq<Byte>)
    ensures HexValue(x).Some? && HexValue(y).Some? ==>
              UrlDecode([PERCENT, x, y] + rest) == [16 * HexValue(x).value + HexValue(y).value] + UrlDecode(rest)
    ensures HexValue(x).None? || HexValue(y).None? ==>
              UrlDecode([PERCENT] + ([x, y] + rest)) == [PERCENT] + UrlDecode([x, y] + rest)
  {
    hide HexValue;
    var e := [PERCENT, x, y] + rest;
    assert e[0] == PERCENT && e[1] == x && e[2] == y && e[3..] == rest && e[1..] == [x, y] + rest;
    assert [PERCENT] + ([x, y] + rest) == e;
  }

  lemma HexDigits(d: nat)
    requires d < 16
    ensures HexValue(HexDigit(d)) == Some(d) && (d >= 10 ==> HexValue(HexDigit(d) + 32) == Some(d))
    ensures HexDigit(d) == if d < 10 then '0' as int + d else 'A' as int + d - 10
  {
  }

  // ----------------------------------------------------------------- the printer

  datatype Key = IntKey(n: int) | StrKey(name: seq<Byte>)

  datatype Cookie = Cookie(key: Key, value: seq<Byte>)

  function PrintOne(c: Cookie, more: bool): seq<Byte> {
    if c.key.IntKey? then []
    else c.key.name + ['=' as int] + UrlEncode(c.value) + (if more then [';' as int, ' ' as int] else [])
  }

  /** The value of the Cookie header. A separator follows every printed cookie that has any
      entry behind it, printed or not. */
  function Printed(cs: seq<Cookie>): seq<Byte> {
    if cs == [] then [] else PrintOne(cs[0], |cs| > 1) + Printed(cs[1..])
  }

  lemma PrintedNext(cs: seq<Cookie>, i: nat)
    requires i < |cs|
    ensures Printed(cs[i..]) == PrintOne(cs[i], i + 1 < |cs|) + Printed(cs[i + 1..])
  {
    hide PrintOne;
    assert cs[i..][1..] == cs[i + 1..] && cs[i..][0] == cs[i];
  }

  /** The printing loop of http_client_send_http_request. */
  method PrintCookies(cs: seq<Cookie>) returns (buffer: seq<Byte>)
    ensures buffer == Printed(cs)
  {
    hide Printed, UrlEncode;
    buffer := [];
    var i := 0;
    assert cs[0..] == cs;
    while i < |cs|
      invariant 0 <= i <= |cs|
      invariant Printed(cs) == buffer + Printed(cs[i..])
    {
      PrintedNext(cs, i);
      var c := cs[i];
      ghost var before, one := buffer, PrintOne(c, i + 1 < |cs|);
      i := i + 1;
      if c.key.StrKey? {
        buffer := buffer + c.key.name + [EQUALS];
        buffer := buffer + UrlEncode(c.value);
        if i < |cs| {
          buffer := buffer + [SEMICOLON, SPACE];
        }
      }
      assert buffer == before + one;
      assert before + (one + Printed(cs[i..])) == (before + one) + Printed(cs[i..]);
    }
    NothingPrinted(cs, i);
  }

  lemma NothingPrinted(cs: seq<Cookie>, i: nat)
    requires i == |cs|
    ensures Printed(cs[i..]) == []
  {
  }

  // ----------------------------------------------------------------- the scanner

  type Jar = map<seq<Byte>, seq<Byte>>

  datatype Parsed =
    | Jar(jar: Jar)
    | Wild   // a copy of negative size, or a write before the key buffer

  /** The first `c` from `i` on, or the end. */
  function IndexOf(s: seq<Byte>, c: Byte, i: nat): (r: nat)
    requires i <= |s|
    ensures i <= r <= |s| && (r < |s| ==> s[r] == c)
    ensures forall k :: i <= k < r ==> s[k] != c
    decreases |s| - i
  {
    if i == |s| || s[i] == c then i else IndexOf(s, c, i + 1)
  }

  lemma CopiedTail(s: seq<Byte>)
    ensures s != [] ==> forall k :: 0 < k < |s| ==> (0 in s[..k + 1] <==> s[0] == 0 || 0 in s[1..][..k])
  {
    if s != [] {
      forall k | 0 < k < |s| ensures 0 in s[..k + 1] <==> s[0] == 0 || 0 in s[1..][..k] {
        assert s[..k + 1] == [s[0]] + s[1..][..k];
      }
    }
  }

  /** strncpy into a larger buffer: nothing after the first NUL is copied. */
  function Copied(s: seq<Byte>): (r: seq<Byte>)
    ensures |r| == |s| && forall k :: 0 <= k < |s| ==> r[k] == if 0 in s[..k + 1] then 0 else s[k]
  {
    CopiedTail(s);
    if s == [] then [] else if s[0] == 0 then seq(|s|, _ => 0) else [s[0]] + Copied(s[1..])
  }

  function Value(at: seq<Byte>, j: nat, end: nat): seq<Byte>
    requires j <= end <= |at|
  {
    UrlDecode(Copied(at[j..end]))
  }

  /** What is left at the end goes to the last key, if there is anything left. */
  function Tail(at: seq<Byte>, j: nat, key: Option<seq<Byte>>, m: Jar): Parsed {
    if j >= |at| then Jar(m)
    else if key.None? then Wild
    else Jar(m[key.value := Value(at, j, |at|)])
  }

  /** The scanner looking for '=' from `i` on, a key starting at `j`: the reference. */
  function KeyPart(at: seq<Byte>, i: nat, j: nat, key: Option<seq<Byte>>, m: Jar): Parsed
    requires i <= |at| && j <= i + 1
    decreases |at| - i
  {
    var e := IndexOf(at, EQUALS, i);
    if e == |at| then Tail(at, j, key, m)
    else if e < j then Wild
    else if e - j + 1 >= KEYLEN then Jar(m)
    else ValuePart(at, e + 1, e + 1, at[j..e], m)
  }

  /** The scanner looking for ';' from `i` on, a value of `key` starting at `j`. */
  function ValuePart(at: seq<Byte>, i: nat, j: nat, key: seq<Byte>, m: Jar): Parsed
    requires j <= i <= |at|
    decreases |at| - i
  {
    var v := IndexOf(at, SEMICOLON, i);
    if v == |at| then Tail(at, j, Some(key), m)
    else KeyPart(at, v + 1, v + 2, Some(key), m[key := Value(at, j, v)])
  }

  lemma KeyNext(at: seq<Byte>, i: nat, j: nat, key: Option<seq<Byte>>, m: Jar)
    requires i < |at| && j <= i + 1
    ensures KeyPart(at, i, j, key, m) ==
            if at[i] != EQUALS then KeyPart(at, i + 1, j, key, m)
            else if i < j then Wild
            else if i - j + 1 >= KEYLEN then Jar(m)
            else ValuePart(at, i + 1, i + 1, at[j..i], m)
  {
    hide Value, Tail, ValuePart;
  }

  lemma ValueNext(at: seq<Byte>, i: nat, j: nat, key: seq<Byte>, m: Jar)
    requires j <= i < |at|
    ensures ValuePart(at, i, j, key, m) ==
            if at[i] != SEMICOLON then ValuePart(at, i + 1, j, key, m)
            else KeyPart(at, i + 1, i + 2, Some(key), m[key := Value(at, j, i)])
  {
    hide Value, Tail, KeyPart;
  }

  lemma KeyLast(at: seq<Byte>, j: nat, key: Option<seq<Byte>>, m: Jar)
    requires j <= |at| + 1
    ensures KeyPart(at, |at|, j, key, m) == Tail(at, j, key, m)
  {
    hide Value, Tail, ValuePart;
  }

  lemma ValueLast(at: seq<Byte>, j: nat, key: seq<Byte>, m: Jar)
    requires j <= |at|
    ensures ValuePart(at, |at|, j, key, m) == Tail(at, j, Some(key), m)
  {
    hide Value, Tail, KeyPart;
  }

  /** http_parse_cookie, character by character. */
  method ParseCookie(at: seq<Byte>) returns (r: Parsed)
    ensures r == KeyPart(at, 0, 0, None, map[])
  {
    hide Value, KeyPart, ValuePart;
    var m: Jar, key: Option<seq<Byte>> := map[], None;
    var state, i, j := 0, 0, 0;
    while i < |at|
      invariant 0 <= i <= |at| && 0 <= j
      invariant state == 0 ==> j <= i + 1 && KeyPart(at, 0, 0, None, map[]) == KeyPart(at, i, j, key, m)
      invariant state != 0 ==>
                  state == 1 && j <= i && key.Some? &&
                  KeyPart(at, 0, 0, None, map[]) == ValuePart(at, i, j, key.value, m)
    {
      if state == 0 { KeyNext(at, i, j, key, m); } else { ValueNext(at, i, j, key.value, m); }
      if state == 0 && at[i] == EQUALS {
        var klen := i - j + 1;
        if klen >= KEYLEN { return Jar(m); }
        if klen - 1 < 0 { return Wild; }
        key := Some(at[j..i]);
        j, state := i + 1, 1;
      } else if state == 1 && at[i] == SEMICOLON {
        m := m[key.value := Value(at, j, i)];
        j, state := i + 2, 0;
      }
      i := i + 1;
    }
    if state == 0 { KeyLast(at, j, key, m); } else { ValueLast(at, j, key.value, m); }
    if j < |at| {
      if key.None? { return Wild; }
      m := m[key.value := Value(at, j, |at|)];
    }
    return Jar(m);
  }

  /** The Cookie branch of the header callback: longer headers are not looked at. */
  function OnCookieHeader(h: seq<Byte>): Option<Parsed> {
    if |h| >= VALLEN then None else Some(KeyPart(h, 0, 0, None, map[]))
  }

  // ------------------------------------------------------------------ round trip

  function Collect(cs: seq<Cookie>, m: Jar): Jar {
    if cs == [] then m
    else Collect(cs[1..], if cs[0].key.IntKey? then m else m[cs[0].key.name := cs[0].value])
  }

  predicate GoodName(name: seq<Byte>) {
    '=' as int !in name && |name| < 127
  }

  predicate GoodNames(cs: seq<Cookie>) {
    forall k :: 0 <= k < |cs| && cs[k].key.StrKey? ==> GoodName(cs[k].key.name)
  }

  /** The last entry is not a printed cookie with an empty value. */
  predicate GoodLast(cs: seq<Cookie>) {
    cs == [] || cs[|cs| - 1].key.IntKey? || cs[|cs| - 1].value != []
  }

  lemma {:induction false} SafeIsCopied(s: seq<Byte>)
    requires Safe(s)
    ensures Copied(s) == s
    decreases |s|
  {
    if s != [] {
      SafeIsCopied(s[1..]);
    }
  }

  lemma SafeValue(at: seq<Byte>, j: nat, end: nat, value: seq<Byte>)
    requires j <= end <= |at| && at[j..end] == UrlEncode(value)
    ensures Value(at, j, end) == value
  {
    hide UrlDecode, UrlEncode, Copied;
    UrlRoundTrip(value);
    SafeIsCopied(at[j..end]);
  }

  /** The first `c` behind a stretch without one. */
  lemma IndexOfIs(s: seq<Byte>, c: Byte, i: nat, r: nat)
    requires i <= r <= |s| && (r < |s| ==> s[r] == c) && forall k :: i <= k < r ==> s[k] != c
    ensures IndexOf(s, c, i) == r
  {
  }

  /** Where the parts of one printed cookie are. */
  lemma PartsAt(at: seq<Byte>, j: nat, name: seq<Byte>, enc: seq<Byte>, rest: seq<Byte>)
    requires j <= |at| && at[j..] == name + [EQUALS] + enc + rest
    ensures var e := j + |name|;
            var v := e + 1 + |enc|;
            && v + |rest| == |at|
            && at[j..e] == name && at[e] == EQUALS && at[e + 1..v] == enc && at[v..] == rest
  {
    var e := j + |name|;
    var v := e + 1 + |enc|;
    var s := at[j..];
    assert s[..|name|] == name && s[|name|] == EQUALS;
    assert s[|name| + 1..|name| + 1 + |enc|] == enc;
    assert s[|name| + 1 + |enc|..] == rest;
    SliceOfSuffix(at, j, j, e);
    SliceOfSuffix(at, j, e + 1, v);
    assert at[v..] == s[v - j..];
  }

  /** Where the scanner finds the '=' and the ';' of a printed cookie at `j`. */
  lemma FoundAt(at: seq<Byte>, i: nat, j: nat, name: seq<Byte>, value: seq<Byte>, rest: seq<Byte>)
    requires EQUALS !in name && (rest == [] || rest[0] == SEMICOLON)
    requires j <= |at| && at[j..] == name + [EQUALS] + UrlEncode(value) + rest
    requires i == j || (i + 1 == j && at[i] == SPACE)
    ensures var e, v := j + |name|, |at| - |rest|;
            e < v <= |at| && IndexOf(at, EQUALS, i) == e && IndexOf(at, SEMICOLON, e + 1) == v && at[j..e] == name &&
            Value(at, e + 1, v) == value
  {
    hide UrlEncode, UrlDecode, Value, IndexOf, Copied;
    var enc := UrlEncode(value);
    var e := j + |name|;
    var v := e + 1 + |enc|;
    PartsAt(at, j, name, enc, rest);
    UrlRoundTrip(value);
    forall k | i <= k < e ensures at[k] != EQUALS {
      if k >= j { assert at[k] == at[j..e][k - j]; }
    }
    IndexOfIs(at, EQUALS, i, e);
    forall k | e + 1 <= k < v ensures at[k] != SEMICOLON {
      assert at[k] == at[e + 1..v][k - e - 1];
    }
    assert rest != [] ==> at[v] == at[v..][0];
    IndexOfIs(at, SEMICOLON, e + 1, v);
    SafeValue(at, e + 1, v, value);
  }

  /** One printed cookie at `j`, with nothing or a separator behind it. */
  lemma ScanOne(at: seq<Byte>, i: nat, j: nat, key: Option<seq<Byte>>, m: Jar, c: Cookie, rest: seq<Byte>)
    requires c.key.StrKey? && GoodName(c.key.name)
    requires j <= |at| && at[j..] == c.key.name + [EQUALS] + UrlEncode(c.value) + rest
    requires i == j || (i + 1 == j && at[i] == SPACE)
    ensures rest == [] ==>
              KeyPart(at, i, j, key, m) == Jar(if c.value == [] then m else m[c.key.name := c.value])
    ensures |rest| >= 2 && rest[0] == SEMICOLON ==>
              var v := |at| - |rest|;
              KeyPart(at, i, j, key, m) == KeyPart(at, v + 1, v + 2, Some(c.key.name), m[c.key.name := c.value])
  {
    hide UrlEncode, UrlDecode, Value, IndexOf, Copied;
    PartsAt(at, j, c.key.name, UrlEncode(c.value), rest);
    if rest == [] || rest[0] == SEMICOLON {
      FoundAt(at, i, j, c.key.name, c.value, rest);
      UrlRoundTrip(c.value);
    }
  }

  /** Scanning what was printed of `cs`, which stands at the end of `at` from `j` on. */
  lemma {:induction false} ScanPrinted(cs: seq<Cookie>, at: seq<Byte>, i: nat, j: nat, key: Option<seq<Byte>>, m: Jar)
    requires GoodNames(cs)
    requires j <= |at| && at[j..] == Printed(cs)
    requires i == j || (i + 1 == j && at[i] == SPACE)
    ensures KeyPart(at, i, j, key, m) == Jar(Collect(if GoodLast(cs) then cs else cs[..|cs| - 1], m))
    decreases |cs|
  {
    hide UrlEncode, UrlDecode, Value, KeyPart, Printed;
    if cs == [] {
      NothingPrinted(cs, 0);
      NothingLeft(at, i, j, key, m);
    } else {
      var c, rest := cs[0], Printed(cs[1..]);
      PrintedNext(cs, 0);
      assert cs[0..] == cs;
      LastOfTail(cs);
      if c.key.IntKey? {
        assert [] + rest == rest;
        ScanPrinted(cs[1..], at, i, j, key, m);
      } else if |cs| == 1 {
        NothingPrinted(cs, 1);
        assert PrintOne(c, false) + [] == c.key.name + [EQUALS] + UrlEncode(c.value) + [];
        ScanOne(at, i, j, key, m, c, []);
      } else {
        var v := ScanSeparated(at, i, j, key, m, c, rest);
        ScanPrinted(cs[1..], at, v + 1, v + 2, Some(c.key.name), m[c.key.name := c.value]);
      }
    }
  }

  /** One printed cookie and its separator, which starts at `v`. */
  lemma ScanSeparated(at: seq<Byte>, i: nat, j: nat, key: Option<seq<Byte>>, m: Jar, c: Cookie, rest: seq<Byte>)
    returns (v: nat)
    requires c.key.StrKey? && GoodName(c.key.name)
    requires j <= |at| && at[j..] == PrintOne(c, true) + rest
    requires i == j || (i + 1 == j && at[i] == SPACE)
    ensures v + 2 <= |at| && at[v + 1] == SPACE && at[v + 2..] == rest
    ensures KeyPart(at, i, j, key, m) == KeyPart(at, v + 1, v + 2, Some(c.key.name), m[c.key.name := c.value])
  {
    hide UrlEncode, UrlDecode, KeyPart, GoodName, PrintOne;
    var tail := SeparatorAt(at, j, c, rest);
    ScanOne(at, i, j, key, m, c, tail);
    v := |at| - |tail|;
  }

  lemma SeparatorAt(at: seq<Byte>, j: nat, c: Cookie, rest: seq<Byte>) returns (tail: seq<Byte>)
    requires c.key.StrKey? && j <= |at| && at[j..] == PrintOne(c, true) + rest
    ensures at[j..] == c.key.name + [EQUALS] + UrlEncode(c.value) + tail
    ensures |at| >= |tail| == |rest| + 2 && tail[0] == SEMICOLON
    ensures at[|at| - |tail| + 1] == SPACE && at[|at| - |tail| + 2..] == rest
  {
    hide UrlEncode;
    var sep: seq<Byte> := [SEMICOLON, SPACE];
    tail := sep + rest;
    assert at[j..] == c.key.name + [EQUALS] + UrlEncode(c.value) + tail;
    PartsAt(at, j, c.key.name, UrlEncode(c.value), tail);
    var v := |at| - |tail|;
    assert at[v..][1] == SPACE && at[v + 2..] == at[v..][2..] == rest;
  }

  lemma NothingLeft(at: seq<Byte>, i: nat, j: nat, key: Option<seq<Byte>>, m: Jar)
    requires j == |at| && (i == j || (i + 1 == j && at[i] == SPACE))
    ensures KeyPart(at, i, j, key, m) == Jar(m)
  {
    IndexOfIs(at, EQUALS, i, |at|);
  }

  lemma LastOfTail(cs: seq<Cookie>)
    requires cs != []
    ensures |cs| > 1 ==> (GoodLast(cs) <==> GoodLast(cs[1..]))
    ensures |cs| > 1 ==> cs[..|cs| - 1][1..] == cs[1..][..|cs| - 2]
    ensures |cs| == 1 && cs[0].key.IntKey? ==> GoodLast(cs) && GoodLast(cs[1..])
  {
  }

  ghost predicate CleanKeys(m: Jar) {
    forall k :: k in m ==> GoodName(k)
  }

  ghost predicate CleanParsed(r: Parsed) {
    r.Jar? ==> CleanKeys(r.jar)
  }

  /** Whatever the header: the scanner only makes keys without '=' that fit the buffer. */
  lemma {:induction false} ScannedKeys(at: seq<Byte>, i: nat, j: nat, key: Option<seq<Byte>>, m: Jar)
    requires i <= |at| && j <= i + 1
    requires j == i || j == i + 1
    requires CleanKeys(m) && (key.Some? ==> GoodName(key.value))
    ensures CleanParsed(KeyPart(at, i, j, key, m))
    decreases |at| - i
  {
    hide UrlDecode, Value;
    var e := IndexOf(at, EQUALS, i);
    if e < |at| && j <= e && e - j + 1 < KEYLEN {
      var name := at[j..e];
      assert GoodName(name);
      var v := IndexOf(at, SEMICOLON, e + 1);
      if v < |at| {
        ScannedKeys(at, v + 1, v + 2, Some(name), m[name := Value(at, e + 1, v)]);
      }
    }
  }

  ghost predicate DistinctNames(cs: seq<Cookie>) {
    forall a, b :: 0 <= a < b < |cs| && cs[a].key.StrKey? && cs[b].key.StrKey? ==> cs[a].key != cs[b].key
  }

  lemma {:induction false} Collected(cs: seq<Cookie>, m: Jar, name: seq<Byte>)
    ensures name in Collect(cs, m) <==> name in m || exists k :: 0 <= k < |cs| && cs[k].key == StrKey(name)
    decreases |cs|
  {
    if cs != [] {
      var c := cs[0];
      var m' := if c.key.IntKey? then m else m[c.key.name := c.value];
      Collected(cs[1..], m', name);
      if k :| 0 <= k < |cs| && cs[k].key == StrKey(name) {
        if k > 0 { assert cs[1..][k - 1].key == StrKey(name); }
      }
      if k :| 0 <= k < |cs[1..]| && cs[1..][k].key == StrKey(name) {
        assert cs[k + 1].key == StrKey(name);
      }
    }
  }

  predicate Sendable(cs: seq<Cookie>) {
    |Printed(cs)| < 4096 && GoodNames(cs) && GoodLast(cs)
  }

  /** A cookie array arrives as it was sent, numeric keys aside, if and only if its names are
      free of '=' and shorter than 127 bytes, the header is shorter than 4096, and it does not
      end in a printed cookie with an empty value. */
  lemma CookieRoundTrip(cs: seq<Cookie>)
    requires DistinctNames(cs)
    ensures OnCookieHeader(Printed(cs)) == Some(Jar(Collect(cs, map[]))) <==> Sendable(cs)
  {
    hide Printed, KeyPart, GoodName;
    var h := Printed(cs);
    if GoodNames(cs) {
      assert h[0..] == h;
      ScanPrinted(cs, h, 0, 0, None, map[]);
      if !GoodLast(cs) {
        var last := |cs| - 1;
        var name := cs[last].key.name;
        Collected(cs[..last], map[], name);
        Collected(cs, map[], name);
        assert cs[last].key == StrKey(name);
      }
    } else {
      var k :| 0 <= k < |cs| && cs[k].key.StrKey? && !GoodName(cs[k].key.name);
      Collected(cs, map[], cs[k].key.name);
      ScannedKeys(h, 0, 0, None, map[]);
    }
  }
}
