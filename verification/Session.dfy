/**
  * The session codec: an array is written as name, delimiter and serialized value for each of its
  * string keys, and read back. Values are written and read by a codec that knows where a value ends.
  */
module Session {
  import opened Options

  const DELIMITER := '|'
  const UNDEF_MARKER := '!'

  datatype Key = Number(n: int) | Name(name: string)

  /** serialize and unserialize; the latter tells how much of its input it has read. */
  datatype Codec<!V> = Codec(ser: V -> string, unser: string -> Option<(V, nat)>)

  /** Whatever follows a serialized value, the value is read back and the rest is left. */
  ghost predicate SelfDelimiting<V(!new)>(c: Codec<V>) {
    forall v: V, rest: string :: c.unser(c.ser(v) + rest) == Some((v, |c.ser(v)|))
  }

  // -------------------------------------------------------------------------- encoding

  predicate Encodable(name: string) {
    '|' !in name && '!' !in name
  }

  /** The text of the string-keyed entries. */
  function Text<V>(c: Codec<V>, entries: seq<(string, V)>): string {
    if entries == [] then ""
    else entries[0].0 + "|" + c.ser(entries[0].1) + Text(c, entries[1..])
  }

  /** The entries with string keys, in order. */
  function Named<V>(a: seq<(Key, V)>): (r: seq<(string, V)>) {
    if a == [] then []
    else if a[0].0.Number? then Named(a[1..])
    else [(a[0].0.name, a[0].1)] + Named(a[1..])
  }

  /** zan_session_encode; None is false. */
  method Encode<V>(c: Codec<V>, a: seq<(Key, V)>) returns (r: Option<string>)
    ensures r.Some? <==> forall k :: 0 <= k < |a| && a[k].0.Name? ==> Encodable(a[k].0.name)
    ensures r.Some? ==> r.value == Text(c, Named(a))
  {
    var buf := "";
    var i := 0;
    while i < |a|
      invariant 0 <= i <= |a|
      invariant forall k :: 0 <= k < i && a[k].0.Name? ==> Encodable(a[k].0.name)
      invariant buf + Text(c, Named(a[i..])) == Text(c, Named(a))
    {
      var (key, v) := a[i];
      assert a[i..][1..] == a[i + 1..];
      if key.Name? {
        TextStep(c, buf, key.name, v, Named(a[i + 1..]));
        if DELIMITER in key.name || UNDEF_MARKER in key.name { return None; }
        buf := buf + key.name + [DELIMITER] + c.ser(v);
      }
      i := i + 1;
    }
    return Some(buf);
  }

  lemma TextStep<V>(c: Codec<V>, buf: string, name: string, v: V, rest: seq<(string, V)>)
    ensures buf + Text(c, [(name, v)] + rest) == (buf + name + [DELIMITER] + c.ser(v)) + Text(c, rest)
  {
    assert ([(name, v)] + rest)[1..] == rest;
  }

  // -------------------------------------------------------------------------- decoding

  /** An entry is replaced where it stands, or appended. */
  function Put<V>(entries: seq<(string, V)>, name: string, v: V): (r: seq<(string, V)>)
    ensures forall k :: 0 <= k < |r| ==> r[k].0 == name || r[k] in entries
  {
    if entries == [] then [(name, v)]
    else if entries[0].0 == name then [(name, v)] + entries[1..]
    else [entries[0]] + Put(entries[1..], name, v)
  }

  /** The first place from `q` on where `ch` stands, or the length. */
  function Find(s: string, q: nat, ch: char): (r: nat)
    requires q <= |s|
    ensures q <= r <= |s|
    ensures forall k :: q <= k < r ==> s[k] != ch
    ensures r < |s| ==> s[r] == ch
    decreases |s| - q
  {
    if q == |s| || s[q] == ch then q else Find(s, q + 1, ch)
  }

  /** One entry read at `p`: None when the value cannot be read, otherwise where to go on and the
      entry, if there is one. A name in `skipped` is passed over without its value. */
  datatype Item<V> = Item(next: nat, entry: Option<(string, V)>)

  function ReadItem<V>(c: Codec<V>, skipped: set<string>, s: string, p: nat, q: nat): (r: Option<Item<V>>)
    requires p <= q < |s| && s[q] == DELIMITER
    ensures r.Some? ==> q < r.value.next <= |s|
    ensures r.Some? && r.value.entry.Some? ==> r.value.entry.value.0 !in skipped
  {
    var marked := s[p] == UNDEF_MARKER;
    var name := if marked then s[p + 1..q] else s[p..q];
    if name in skipped || marked then Some(Item(q + 1, None))
    else match c.unser(s[q + 1..])
         case None => None
         case Some((v, n)) => if q + 1 + n > |s| then None else Some(Item(q + 1 + n, Some((name, v))))
  }

  /** Decoding from `p` on, given the entries so far. */
  function DecodeFrom<V>(
    c: Codec<V>, skipped: set<string>, s: string, p: nat, got: seq<(string, V)>): Option<seq<(string, V)>>
    requires p <= |s|
    decreases |s| - p
  {
    var q := Find(s, p, DELIMITER);
    if q == |s| then Some(got)
    else match ReadItem(c, skipped, s, p, q)
         case None => None
         case Some(item) =>
           DecodeFrom(c, skipped, s, item.next,
                      if item.entry.None? then got else Put(got, item.entry.value.0, item.entry.value.1))
  }

  /** zan_session_decode; None is false. */
  method Decode<V>(c: Codec<V>, skipped: set<string>, s: string) returns (r: Option<seq<(string, V)>>)
    ensures r == DecodeFrom(c, skipped, s, 0, [])
  {
    var got: seq<(string, V)> := [];
    var p := 0;
    while p < |s|
      invariant p <= |s| && DecodeFrom(c, skipped, s, p, got) == DecodeFrom(c, skipped, s, 0, [])
    {
      var q := p;
      while s[q] != DELIMITER
        invariant p <= q < |s| && Find(s, q, DELIMITER) == Find(s, p, DELIMITER)
        decreases |s| - q
      {
        q := q + 1;
        if q >= |s| { return Some(got); }
      }
      var item := ReadItem(c, skipped, s, p, q);
      if item.None? { return None; }
      if item.value.entry.Some? {
        got := Put(got, item.value.entry.value.0, item.value.entry.value.1);
      }
      p := item.value.next;
    }
    return Some(got);
  }

  // -------------------------------------------------------------- what foreign texts give

  /** A marked name is passed over without a value: decoding goes on right behind its delimiter. */
  lemma SkipsMarked<V>(c: Codec<V>, skipped: set<string>, s: string, p: nat, name: string, got: seq<(string, V)>)
    requires p + |name| + 2 <= |s| && s[p..p + |name| + 2] == "!" + name + "|"
    requires '|' !in name
    ensures DecodeFrom(c, skipped, s, p, got) == DecodeFrom(c, skipped, s, p + |name| + 2, got)
  {
    var q := p + |name| + 1;
    var t := [UNDEF_MARKER] + name + [DELIMITER];
    assert s[p] == s[p..q + 1][0] == UNDEF_MARKER && s[q] == s[p..q + 1][q - p] == DELIMITER;
    forall k | p <= k < q ensures s[k] != DELIMITER {
      assert s[k] == s[p..q + 1][k - p] == t[k - p];
      if k > p { assert t[k - p] == name[k - p - 1]; }
    }
    FindAt(s, p, q, DELIMITER);
  }

  /** A name that comes again takes its value to where it first stood, and leaves the others. */
  lemma {:induction false} PutReplaces<V>(entries: seq<(string, V)>, name: string, v: V, k: nat)
    requires k < |entries| && entries[k].0 == name && forall j :: 0 <= j < k ==> entries[j].0 != name
    ensures Put(entries, name, v) == entries[k := (name, v)]
    decreases |entries|
  {
    if k > 0 {
      PutReplaces(entries[1..], name, v, k - 1);
      assert entries[k := (name, v)] == [entries[0]] + entries[1..][k - 1 := (name, v)];
    } else {
      assert entries[0 := (name, v)] == [(name, v)] + entries[1..];
    }
  }

  // ----------------------------------------------------------------------- round trip

  ghost predicate Distinct<V>(entries: seq<(string, V)>) {
    forall i, j :: 0 <= i < j < |entries| ==> entries[i].0 != entries[j].0
  }

  lemma {:induction false} PutAppends<V>(entries: seq<(string, V)>, name: string, v: V)
    requires forall k :: 0 <= k < |entries| ==> entries[k].0 != name
    ensures Put(entries, name, v) == entries + [(name, v)]
  {
    if entries != [] { PutAppends(entries[1..], name, v); }
  }

  lemma {:induction false} FindAt(s: string, p: nat, q: nat, ch: char)
    requires p <= q < |s| && s[q] == ch && forall k :: p <= k < q ==> s[k] != ch
    ensures Find(s, p, ch) == q
    decreases q - p
  {
    if p < q { FindAt(s, p + 1, q, ch); }
  }

  /** At the text of an entry, decoding reads the entry and goes on behind it. */
  lemma ReadsEntry<V(!new)>(c: Codec<V>, skipped: set<string>, s: string, p: nat, name: string, v: V, rest: string)
    requires SelfDelimiting(c) && Encodable(name) && name !in skipped
    requires p <= |s| && s[p..] == name + [DELIMITER] + c.ser(v) + rest
    ensures var q := p + |name|; var next := q + 1 + |c.ser(v)|;
            && next <= |s| && s[next..] == rest
            && Find(s, p, DELIMITER) == q && q < |s| && s[q] == DELIMITER
            && ReadItem(c, skipped, s, p, q) == Some(Item(next, Some((name, v))))
  {
    var t := s[p..];
    var q := p + |name|;
    var n := |c.ser(v)|;
    assert |s| == p + |t|;
    assert forall k :: 0 <= k < |t| ==> t[k] == s[p + k];
    assert t[..|name|] == name && t[|name|] == DELIMITER;
    assert forall k :: p <= k < q ==> s[k] == name[k - p];
    FindAt(s, p, q, DELIMITER);
    assert s[p..q] == name;
    assert s[q + 1..] == t[|name| + 1..] == c.ser(v) + rest;
    assert s[q + 1 + n..] == s[q + 1..][n..] == rest;
    assert c.unser(c.ser(v) + rest) == Some((v, n));
  }

  lemma DecodeStep<V>(
    c: Codec<V>, skipped: set<string>, s: string, p: nat, q: nat, next: nat, got: seq<(string, V)>, name: string, v: V)
    requires p <= q < |s| && s[q] == DELIMITER && Find(s, p, DELIMITER) == q
    requires ReadItem(c, skipped, s, p, q) == Some(Item(next, Some((name, v))))
    ensures DecodeFrom(c, skipped, s, p, got) == DecodeFrom(c, skipped, s, next, Put(got, name, v))
  {
    hide Find, ReadItem, Put;
  }

  lemma {:induction false} DecodesText<V(!new)>(
    c: Codec<V>, skipped: set<string>, s: string, p: nat, got: seq<(string, V)>, left: seq<(string, V)>)
    requires SelfDelimiting(c) && Distinct(got + left)
    requires forall k :: 0 <= k < |left| ==> Encodable(left[k].0) && left[k].0 !in skipped
    requires p <= |s| && s[p..] == Text(c, left)
    ensures DecodeFrom(c, skipped, s, p, got) == Some(got + left)
    decreases |left|
  {
    if left == [] {
      assert got + left == got;
    } else {
      var (name, v) := left[0];
      var next := p + |name| + 1 + |c.ser(v)|;
      ReadsEntry(c, skipped, s, p, name, v, Text(c, left[1..]));
      hide SelfDelimiting, Find, ReadItem, Put, Text, DecodeFrom;
      DecodeStep(c, skipped, s, p, p + |name|, next, got, name, v);
      forall k | 0 <= k < |got| ensures got[k].0 != name {
        assert (got + left)[k] == got[k] && (got + left)[|got|] == left[0];
      }
      PutAppends(got, name, v);
      assert got + [(name, v)] + left[1..] == got + left;
      DecodesText(c, skipped, s, next, got + [(name, v)], left[1..]);
    }
  }

  /** Nothing decoded carries a name that is passed over. */
  lemma {:induction false} NeverSkipped<V>(c: Codec<V>, skipped: set<string>, s: string, p: nat, got: seq<(string, V)>)
    requires p <= |s| && forall k :: 0 <= k < |got| ==> got[k].0 !in skipped
    ensures var r := DecodeFrom(c, skipped, s, p, got);
            r.Some? ==> forall k :: 0 <= k < |r.value| ==> r.value[k].0 !in skipped
    decreases |s| - p
  {
    var q := Find(s, p, DELIMITER);
    if q < |s| {
      var item := ReadItem(c, skipped, s, p, q);
      if item.Some? {
        var longer := if item.value.entry.None? then got
          else Put(got, item.value.entry.value.0, item.value.entry.value.1);
        assert DecodeFrom(c, skipped, s, p, got) == DecodeFrom(c, skipped, s, item.value.next, longer);
        NeverSkipped(c, skipped, s, item.value.next, longer);
      }
    }
  }

  /** Decoding what was encoded gives the string-keyed entries, in order, exactly if none of their
      names is passed over. */
  lemma SessionRoundTrip<V(!new)>(c: Codec<V>, skipped: set<string>, entries: seq<(string, V)>)
    requires SelfDelimiting(c) && Distinct(entries)
    requires forall k :: 0 <= k < |entries| ==> Encodable(entries[k].0)
    ensures DecodeFrom(c, skipped, Text(c, entries), 0, []) == Some(entries)
            <==> forall k :: 0 <= k < |entries| ==> entries[k].0 !in skipped
  {
    if forall k :: 0 <= k < |entries| ==> entries[k].0 !in skipped {
      assert [] + entries == entries;
      DecodesText(c, skipped, Text(c, entries), 0, [], entries);
    } else {
      NeverSkipped(c, skipped, Text(c, entries), 0, []);
    }
  }

  lemma {:induction false} NamedDistinct<V>(a: seq<(Key, V)>)
    requires forall i, j :: 0 <= i < j < |a| ==> a[i].0 != a[j].0
    ensures Distinct(Named(a))
    ensures forall k :: 0 <= k < |Named(a)| ==> exists i :: 0 <= i < |a| && a[i] == (Name(Named(a)[k].0), Named(a)[k].1)
  {
    if a != [] {
      var rest := Named(a[1..]);
      NamedDistinct(a[1..]);
      forall k | 0 <= k < |rest| ensures exists i :: 0 < i < |a| && a[i] == (Name(rest[k].0), rest[k].1) {
        var i :| 0 <= i < |a[1..]| && a[1..][i] == (Name(rest[k].0), rest[k].1);
        assert a[i + 1] == (Name(rest[k].0), rest[k].1);
      }
    }
  }

  /** For an array: it comes back without its numeric keys. */
  lemma ArrayRoundTrip<V(!new)>(c: Codec<V>, skipped: set<string>, a: seq<(Key, V)>)
    requires SelfDelimiting(c) && forall i, j :: 0 <= i < j < |a| ==> a[i].0 != a[j].0
    requires forall k :: 0 <= k < |a| && a[k].0.Name? ==> Encodable(a[k].0.name)
    ensures DecodeFrom(c, skipped, Text(c, Named(a)), 0, []) == Some(Named(a))
            <==> forall k :: 0 <= k < |Named(a)| ==> Named(a)[k].0 !in skipped
  {
    NamedDistinct(a);
    SessionRoundTrip(c, skipped, Named(a));
  }
}
