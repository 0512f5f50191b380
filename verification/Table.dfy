/**
  * Rows of the shared-memory table: how columns are laid out, what set, incr, decr and get do to
  * the bytes of a row, and what processes see that interleave under the row's spin lock.
  */
module Table {
  import opened Options
  import opened Bytes

  // ------------------------------------------------------------------------ columns

  datatype Kind = Int8 | Int16 | Int32 | Int64 | Float | Text

  datatype Column = Column(kind: Kind, index: nat, size: nat)

  predicate Integral(k: Kind) {
    k != Float && k != Text
  }

  /** The bytes a column of the kind takes; a text column has `room` bytes behind its length. */
  function Size(k: Kind, room: nat): (n: nat)
    ensures n >= 1
  {
    match k
    case Int8 => 1
    case Int16 => 2
    case Int32 => 4
    case Int64 => 8
    case Float => 8
    case Text => room + 4
  }

  predicate Sized(c: Column) {
    if c.kind == Text then c.size >= 4 else c.size == Size(c.kind, 0)
  }

  // ------------------------------------------------------------------------- layout

  datatype Definition = Definition(kind: Kind, room: nat)

  /** The item_size the table has reached when definition `k` is added. */
  function Start(ds: seq<Definition>, k: nat): nat
    requires k <= |ds|
  {
    if k == 0 then 0 else Start(ds, k - 1) + Size(ds[k - 1].kind, ds[k - 1].room)
  }

  /** swTableColumn_add: the index is a 16-bit field. */
  function ColumnOf(ds: seq<Definition>, k: nat): Column
    requires k < |ds|
  {
    Column(ds[k].kind, Start(ds, k) % 0x1_0000, Size(ds[k].kind, ds[k].room))
  }

  ghost predicate Apart(a: Column, b: Column) {
    a.index + a.size <= b.index || b.index + b.size <= a.index
  }

  lemma {:induction false} StartGrows(ds: seq<Definition>, i: nat, j: nat)
    requires i < j <= |ds|
    ensures Start(ds, i) + Size(ds[i].kind, ds[i].room) <= Start(ds, j)
    decreases j
  {
    if i < j - 1 { StartGrows(ds, i, j - 1); }
  }

  /** Every byte below the reached size belongs to an earlier definition. */
  lemma {:induction false} Covered(ds: seq<Definition>, k: nat, p: nat) returns (j: nat)
    requires k <= |ds| && p < Start(ds, k)
    ensures j < k && Start(ds, j) <= p < Start(ds, j + 1)
  {
    if p < Start(ds, k - 1) { j := Covered(ds, k - 1, p); } else { j := k - 1; }
  }

  /** Columns never share a byte exactly as long as each begins within the reach of the index. */
  lemma LayoutApart(ds: seq<Definition>)
    ensures (forall i, j :: 0 <= i < j < |ds| ==> Apart(ColumnOf(ds, i), ColumnOf(ds, j)))
            <==> forall k :: 0 <= k < |ds| ==> Start(ds, k) < 0x1_0000
  {
    if forall k :: 0 <= k < |ds| ==> Start(ds, k) < 0x1_0000 {
      forall i, j | 0 <= i < j < |ds| ensures Apart(ColumnOf(ds, i), ColumnOf(ds, j)) {
        StartGrows(ds, i, j);
      }
    } else {
      var k :| 0 <= k < |ds| && Start(ds, k) >= 0x1_0000;
      var p := Start(ds, k) % 0x1_0000;
      var j := Covered(ds, k, p);
      assert ColumnOf(ds, j).index == Start(ds, j);
      assert !Apart(ColumnOf(ds, j), ColumnOf(ds, k));
    }
  }

  /** The columns by name, as the operations on rows of `n` bytes use them. */
  ghost predicate Layout(cols: map<string, Column>, n: nat) {
    && (forall x <- cols :: Sized(cols[x]) && cols[x].index + cols[x].size <= n)
    && (forall x <- cols, y <- cols :: x != y ==> Apart(cols[x], cols[y]))
  }

  /** A table defined column by column, under different names. */
  ghost predicate Defines(cols: map<string, Column>, names: seq<string>, ds: seq<Definition>) {
    && |names| == |ds| && (forall i, j :: 0 <= i < j < |names| ==> names[i] != names[j])
    && (forall k :: 0 <= k < |names| ==> names[k] in cols && cols[names[k]] == ColumnOf(ds, k))
    && (forall x <- cols :: exists k :: 0 <= k < |names| && names[k] == x)
  }

  /** Its columns are laid out properly in rows of the reached size, if and only if each begins within
      the reach of the index. */
  lemma DefinedLayout(cols: map<string, Column>, names: seq<string>, ds: seq<Definition>)
    requires Defines(cols, names, ds)
    ensures Layout(cols, Start(ds, |ds|)) <==> forall k :: 0 <= k < |ds| ==> Start(ds, k) < 0x1_0000
  {
    hide ColumnOf, Start, Apart, Layout, Defines, Sized;
    LayoutApart(ds);
    AllWithin(cols, names, ds);
    AllApart(cols, names, ds);
    LayoutIs(cols, Start(ds, |ds|));
  }

  lemma LayoutIs(cols: map<string, Column>, n: nat)
    requires forall x <- cols :: Sized(cols[x]) && cols[x].index + cols[x].size <= n
    ensures Layout(cols, n) <==> forall x <- cols, y <- cols :: x != y ==> Apart(cols[x], cols[y])
  {
  }

  lemma AllWithin(cols: map<string, Column>, names: seq<string>, ds: seq<Definition>)
    requires Defines(cols, names, ds)
    ensures forall x <- cols :: Sized(cols[x]) && cols[x].index + cols[x].size <= Start(ds, |ds|)
  {
    forall x <- cols ensures Sized(cols[x]) && cols[x].index + cols[x].size <= Start(ds, |ds|) {
      var k :| 0 <= k < |names| && names[k] == x;
      StartGrows(ds, k, |ds|);
      IndexBelow(ds, k);
    }
  }

  lemma AllApart(cols: map<string, Column>, names: seq<string>, ds: seq<Definition>)
    requires Defines(cols, names, ds)
    ensures (forall x <- cols, y <- cols :: x != y ==> Apart(cols[x], cols[y])) <==>
            forall i, j :: 0 <= i < j < |ds| ==> Apart(ColumnOf(ds, i), ColumnOf(ds, j))
  {
    hide ColumnOf, Apart;
    if forall i, j :: 0 <= i < j < |ds| ==> Apart(ColumnOf(ds, i), ColumnOf(ds, j)) {
      forall x <- cols, y <- cols | x != y ensures Apart(cols[x], cols[y]) {
        var i :| 0 <= i < |names| && names[i] == x;
        var j :| 0 <= j < |names| && names[j] == y;
        ApartEither(ds, i, j);
      }
    }
    if forall x <- cols, y <- cols :: x != y ==> Apart(cols[x], cols[y]) {
      forall i, j | 0 <= i < j < |ds| ensures Apart(ColumnOf(ds, i), ColumnOf(ds, j)) {
        assert names[i] != names[j];
      }
    }
  }

  lemma IndexBelow(ds: seq<Definition>, k: nat)
    requires k < |ds|
    ensures Sized(ColumnOf(ds, k)) && ColumnOf(ds, k).index <= Start(ds, k)
  {
  }

  lemma ApartEither(ds: seq<Definition>, i: nat, j: nat)
    requires i < |ds| && j < |ds| && i != j
    requires forall i, j :: 0 <= i < j < |ds| ==> Apart(ColumnOf(ds, i), ColumnOf(ds, j))
    ensures Apart(ColumnOf(ds, i), ColumnOf(ds, j))
  {
    if j < i { assert Apart(ColumnOf(ds, j), ColumnOf(ds, i)); }
  }

  // -------------------------------------------------------------------- column values

  const TWO_64: nat := 0x1_0000_0000_0000_0000

  type Double = s: seq<Byte> | |s| == 8 witness [0, 0, 0, 0, 0, 0, 0, 0]

  /** A value given to set: what its conversions to integer, double and string are. */
  datatype Value = Value(long: int, double: Double, text: seq<Byte>)

  function Patch(data: seq<Byte>, at: nat, bs: seq<Byte>): (r: seq<Byte>)
    requires at + |bs| <= |data|
    ensures |r| == |data|
  {
    data[..at] + bs + data[at + |bs|..]
  }

  /** swTableRow_set_value: the bytes written at the column's index. */
  function Stored(c: Column, v: Value): (r: seq<Byte>)
    requires Sized(c)
    ensures |r| <= c.size && (c.kind != Text ==> |r| == c.size)
  {
    match c.kind
    case Float => v.double
    case Text => var n := if |v.text| > c.size - 4 then c.size - 4 else |v.text|; LeBytes(n, 4) + v.text[..n]
    case _ => LeBytes(v.long % TWO_64, c.size)
  }

  /** The column's bytes as an unsigned integer. */
  function Raw(data: seq<Byte>, c: Column): nat
    requires c.index + c.size <= |data|
  {
    Le(data[c.index..c.index + c.size])
  }

  /** The cast to the signed type of the column's width. */
  function Signed(v: nat, size: nat): int {
    if 2 * v < Pow256(size) then v else v - Pow256(size)
  }

  /** php_swoole_table_row2array on a text column. */
  function GetText(data: seq<Byte>, c: Column): (r: Option<seq<Byte>>)
    requires Sized(c) && c.kind == Text && c.index + c.size <= |data|
  {
    var n := Le(data[c.index..c.index + 4]);
    if c.index + 4 + n <= |data| then Some(data[c.index + 4..c.index + 4 + n]) else None
  }

  lemma Widths(c: Column)
    requires Sized(c) && Integral(c.kind)
    ensures Pow256(c.size) == if c.kind == Int8 then 0x100 else if c.kind == Int16 then 0x1_0000
                              else if c.kind == Int32 then 0x1_0000_0000 else TWO_64
  {
    assert Pow256(1) == 0x100;
    assert Pow256(2) == 0x1_0000;
    assert Pow256(4) == 0x1_0000 * Pow256(2);
    assert Pow256(6) == 0x1_0000 * Pow256(4);
    assert Pow256(8) == 0x1_0000 * Pow256(6);
  }

  /** Arithmetic on 64 bits stored in fewer bytes is arithmetic modulo the column's width. */
  lemma WrapTwice(c: Column, m: int, d: int)
    requires Sized(c) && Integral(c.kind)
    ensures (m % Pow256(c.size) + d) % TWO_64 % Pow256(c.size) == (m + d) % Pow256(c.size)
    ensures m % TWO_64 % Pow256(c.size) == m % Pow256(c.size)
    ensures 0 <= m % Pow256(c.size) < TWO_64
  {
    Widths(c);
    var p := Pow256(c.size);
    var q: nat := if c.kind == Int8 then 0x100_0000_0000_0000
                  else if c.kind == Int16 then 0x1_0000_0000_0000
                  else if c.kind == Int32 then 0x1_0000_0000 else 1;
    assert TWO_64 == p * q;
    ModOfMod(m % p + d, p, q);
    ModOfSum(m, d, p);
    ModOfMod(m, p, q);
  }

  lemma ModOfMod(x: int, p: nat, q: nat)
    requires p > 0 && q > 0 && p * q > 0
    ensures x % (p * q) % p == x % p
  {
    var y := x % (p * q);
    var k := x / (p * q);
    assert x == p * q * k + y;
    assert p * q * k == p * (q * k);
    assert y == p * (y / p) + y % p;
    assert x == p * (q * k + y / p) + y % p;
    ModOf(x, p, q * k + y / p, y % p);
  }

  lemma ModOfSum(m: int, d: int, p: nat)
    requires p > 0
    ensures (m % p + d) % p == (m + d) % p
  {
    var a := m % p + d;
    assert m == p * (m / p) + m % p;
    assert a == p * (a / p) + a % p;
    assert m + d == p * (m / p + a / p) + a % p;
    ModOf(m + d, p, m / p + a / p, a % p);
  }

  /** Reading back gives the one number of the signed range that is congruent to the stored one. */
  lemma SignedRange(c: Column, m: int)
    requires Sized(c) && Integral(c.kind)
    ensures var x := Signed(m % Pow256(c.size), c.size);
            && x % Pow256(c.size) == m % Pow256(c.size)
            && -(Pow256(c.size) as int) <= 2 * x < Pow256(c.size)
            && (-(Pow256(c.size) as int) <= 2 * m < Pow256(c.size) ==> x == m)
  {
    Widths(c);
  }

  lemma PatchReads(data: seq<Byte>, at: nat, bs: seq<Byte>, i: nat, j: nat)
    requires at + |bs| <= |data| && i <= j <= |data|
    ensures i == at && j == at + |bs| ==> Patch(data, at, bs)[i..j] == bs
    ensures j <= at || at + |bs| <= i ==> Patch(data, at, bs)[i..j] == data[i..j]
  {
    var p := Patch(data, at, bs);
    assert Untouched(p, data, at, at + |bs|);
    if j <= at || at + |bs| <= i { UntouchedSlice(p, data, at, at + |bs|, i, j); }
  }

  /** What set stores in a text column, get returns: the text, cut to the room there is. */
  lemma TextRoundTrip(data: seq<Byte>, c: Column, v: Value)
    requires Sized(c) && c.kind == Text && c.index + c.size <= |data| && c.size < 0x1_0000_0000
    ensures GetText(Patch(data, c.index, Stored(c, v)), c)
            == Some(if |v.text| > c.size - 4 then v.text[..c.size - 4] else v.text)
  {
    var n := if |v.text| > c.size - 4 then c.size - 4 else |v.text|;
    var bs := Stored(c, v);
    var p := Patch(data, c.index, bs);
    PatchReads(data, c.index, bs, c.index, c.index + |bs|);
    SliceOfSlice(p, c.index, c.index + |bs|, 0, 4);
    SliceOfSlice(p, c.index, c.index + |bs|, 4, |bs|);
    assert bs[0..4] == LeBytes(n, 4) && bs[4..|bs|] == v.text[..n];
    assert Pow256(4) == 0x1_0000_0000 by { Widths(Column(Int32, 0, 4)); }
    LeOfLeBytes(n, 4);
    assert |bs| == 4 + n;
    assert v.text[..|v.text|] == v.text;
  }

  /** A text column defined for `room` bytes holds exactly the texts of up to that many. */
  lemma DefinedText(ds: seq<Definition>, k: nat, data: seq<Byte>, v: Value)
    requires k < |ds| && ds[k].kind == Text && ds[k].room < 0xFFFF_FFFC
    requires ColumnOf(ds, k).index + ColumnOf(ds, k).size <= |data|
    ensures var c := ColumnOf(ds, k);
            GetText(Patch(data, c.index, Stored(c, v)), c) == Some(v.text) <==> |v.text| <= ds[k].room
  {
    hide GetText, Stored;
    TextRoundTrip(data, ColumnOf(ds, k), v);
  }

  // ------------------------------------------------------- processes sharing a row

  /** The calls that take the row lock. decr is incr by the negated amount. */
  datatype Call = Incr(name: string, delta: int) | Set(values: seq<(string, Value)>) | Get

  /** Where a process is in its call. It holds the lock everywhere but at Idle. */
  datatype Pc =
    | Idle
    | Adding(name: string, delta: int)
    | Have(name: string, delta: int, value: nat)
    | Setting(values: seq<(string, Value)>)
    | Reading
    | Leaving

  /** What has been done to, or read from, an integer column, in order. */
  datatype Entry =
    | Added(name: string, delta: int, result: int)
    | Assigned(name: string, value: int)
    | Got(name: string, value: int)

  datatype State = State(data: seq<Byte>, lock: Option<nat>, pcs: map<nat, Pc>, log: seq<Entry>)

  /** A process calls and finds or misses a row, makes its next step (given the result of the
      floating-point sum where there is one), or while reading reads a column. */
  datatype Event = Acquire(w: nat, call: Call, found: bool) | Go(w: nat, sum: Double) | Read(w: nat, name: string)

  function PcOf(s: State, w: nat): Pc {
    if w in s.pcs then s.pcs[w] else Idle
  }

  function Begun(call: Call, found: bool): Pc {
    if !found then Leaving
    else match call
         case Incr(name, delta) => Adding(name, delta)
         case Set(values) => Setting(values)
         case Get => Reading
  }

  function Move(s: State, w: nat, pc: Pc): State {
    s.(pcs := s.pcs[w := pc])
  }

  function StartAdd(cols: map<string, Column>, s: State, w: nat, name: string, delta: int, sum: Double): State
    requires Layout(cols, |s.data|)
  {
    if name !in cols || cols[name].kind == Text then Move(s, w, Leaving)
    else if cols[name].kind == Float then Move(s.(data := Patch(s.data, cols[name].index, sum)), w, Leaving)
    else Move(s, w, Have(name, delta, Raw(s.data, cols[name])))
  }

  function FinishAdd(cols: map<string, Column>, s: State, w: nat, name: string, delta: int, value: nat): State
    requires Layout(cols, |s.data|) && name in cols && Integral(cols[name].kind)
  {
    var v := (value + delta) % TWO_64;
    var s' := s.(data := Patch(s.data, cols[name].index, LeBytes(v, cols[name].size)),
                 log := s.log + [Added(name, delta, Signed(v, 8))]);
    Move(s', w, Leaving)
  }

  function SetFirst(cols: map<string, Column>, s: State, w: nat, values: seq<(string, Value)>): State
    requires Layout(cols, |s.data|) && values != []
  {
    var (name, v) := values[0];
    var s' := if name !in cols then s
              else s.(data := Patch(s.data, cols[name].index, Stored(cols[name], v)),
                      log := s.log + [Assigned(name, v.long)]);
    Move(s', w, Setting(values[1..]))
  }

  function Next(cols: map<string, Column>, s: State, e: Event): (r: State)
    requires Layout(cols, |s.data|)
    ensures |r.data| == |s.data|
  {
    match e
    case Acquire(w, call, found) =>
      if s.lock == None && PcOf(s, w) == Idle then Move(s.(lock := Some(w)), w, Begun(call, found)) else s
    case Read(w, name) =>
      if PcOf(s, w) == Reading && name in cols && Integral(cols[name].kind)
      then s.(log := s.log + [Got(name, Signed(Raw(s.data, cols[name]), cols[name].size))])
      else s
    case Go(w, sum) =>
      match PcOf(s, w)
      case Idle => s
      case Adding(name, delta) => StartAdd(cols, s, w, name, delta, sum)
      case Have(name, delta, value) =>
        if name in cols && Integral(cols[name].kind) then FinishAdd(cols, s, w, name, delta, value) else s
      case Setting(values) => if values == [] then Move(s, w, Leaving) else SetFirst(cols, s, w, values)
      case Reading => Move(s, w, Leaving)
      case Leaving => Move(s.(lock := None), w, Idle)
  }

  // ---------------------------------------------------------------------- invariants

  /** The lock is held by the one process that is inside a call. */
  ghost predicate Exclusive(s: State) {
    && (forall w: nat :: PcOf(s, w) != Idle ==> s.lock == Some(w))
    && (s.lock.Some? ==> PcOf(s, s.lock.value) != Idle)
  }

  /** A fetched number is still what the column holds. */
  ghost predicate Fresh(cols: map<string, Column>, s: State)
    requires Layout(cols, |s.data|)
  {
    forall w <- s.pcs :: s.pcs[w].Have? ==>
      var name := s.pcs[w].name;
      name in cols && Integral(cols[name].kind) && s.pcs[w].value == Raw(s.data, cols[name])
  }

  /** What the log says the column holds, as a number without bound. */
  function Meaning(start: int, log: seq<Entry>, name: string): int {
    if log == [] then start
    else
      var last := log[|log| - 1];
      var before := Meaning(start, log[..|log| - 1], name);
      if last.name != name then before
      else match last
           case Added(_, delta, _) => before + delta
           case Assigned(_, value) => value
           case Got(_, _) => before
  }

  ghost predicate Agrees(cols: map<string, Column>, init: seq<Byte>, s: State)
    requires Layout(cols, |init|) && |s.data| == |init|
  {
    forall x <- cols :: Integral(cols[x].kind) ==>
      Raw(s.data, cols[x]) == Meaning(Raw(init, cols[x]), s.log, x) % Pow256(cols[x].size)
  }

  /** The result in entry `k` is the one the entries before it call for. */
  ghost predicate Explained(cols: map<string, Column>, init: seq<Byte>, log: seq<Entry>, k: nat)
    requires Layout(cols, |init|) && k < |log|
  {
    var x := log[k].name;
    x in cols && Integral(cols[x].kind) ==>
      var p := Pow256(cols[x].size);
      match log[k]
      case Added(_, _, r) =>
        && r % p == Meaning(Raw(init, cols[x]), log[..k + 1], x) % p
        && -(TWO_64 as int) <= 2 * r < TWO_64
      case Got(_, v) => v % p == Meaning(Raw(init, cols[x]), log[..k], x) % p && -(p as int) <= 2 * v < p
      case Assigned(_, _) => true
  }

  ghost predicate Inv(cols: map<string, Column>, init: seq<Byte>, s: State)
    requires Layout(cols, |init|)
  {
    && |s.data| == |init|
    && Exclusive(s)
    && Fresh(cols, s)
    && Agrees(cols, init, s)
    && (forall k :: 0 <= k < |s.log| ==> Explained(cols, init, s.log, k))
  }

  // ------------------------------------------------------------------------- proofs

  /** Writing column `x` leaves the bytes of the other columns alone. */
  lemma PatchColumn(cols: map<string, Column>, data: seq<Byte>, x: string, bs: seq<Byte>, y: string)
    requires Layout(cols, |data|) && x in cols && y in cols && |bs| <= cols[x].size
    ensures x != y ==> Raw(Patch(data, cols[x].index, bs), cols[y]) == Raw(data, cols[y])
    ensures x == y && |bs| == cols[x].size ==> Raw(Patch(data, cols[x].index, bs), cols[y]) == Le(bs)
  {
    hide Le, Patch;
    assert x != y ==> Apart(cols[x], cols[y]);
    hide Layout, Apart;
    PatchReads(data, cols[x].index, bs, cols[y].index, cols[y].index + cols[y].size);
  }

  lemma MeaningSnoc(start: int, log: seq<Entry>, e: Entry, name: string)
    ensures Meaning(start, log + [e], name) ==
            if e.name != name then Meaning(start, log, name)
            else match e
                 case Added(_, delta, _) => Meaning(start, log, name) + delta
                 case Assigned(_, value) => value
                 case Got(_, _) => Meaning(start, log, name)
  {
    assert (log + [e])[..|log|] == log;
  }

  lemma ExplainedSnoc(cols: map<string, Column>, init: seq<Byte>, log: seq<Entry>, e: Entry)
    requires Layout(cols, |init|) && forall k :: 0 <= k < |log| ==> Explained(cols, init, log, k)
    requires Explained(cols, init, log + [e], |log|)
    ensures forall k :: 0 <= k < |log + [e]| ==> Explained(cols, init, log + [e], k)
  {
    hide Meaning, Layout;
    forall k | 0 <= k < |log| ensures Explained(cols, init, log + [e], k) {
      assert Explained(cols, init, log, k);
      assert (log + [e])[..k] == log[..k] && (log + [e])[..k + 1] == log[..k + 1];
    }
  }

  /** Writing `bs` to column `x` and logging `e` keeps the columns in step with the log. */
  lemma AgreesPatch(cols: map<string, Column>, init: seq<Byte>, s: State, t: State, x: string, bs: seq<Byte>, e: Entry)
    requires Layout(cols, |init|) && |s.data| == |init| && Agrees(cols, init, s)
    requires x in cols && |bs| <= cols[x].size && e.name == x
    requires t.data == Patch(s.data, cols[x].index, bs) && t.log == s.log + [e]
    requires Integral(cols[x].kind) ==>
               |bs| == cols[x].size && Le(bs) == Meaning(Raw(init, cols[x]), t.log, x) % Pow256(cols[x].size)
    ensures Agrees(cols, init, t)
  {
    hide Meaning, Le, Pow256, Patch;
    forall y <- cols | Integral(cols[y].kind)
      ensures Raw(t.data, cols[y]) == Meaning(Raw(init, cols[y]), t.log, y) % Pow256(cols[y].size)
    {
      PatchColumn(cols, s.data, x, bs, y);
      MeaningSnoc(Raw(init, cols[y]), s.log, e, y);
    }
  }

  /** Seen as a 64-bit signed number, a sum keeps its residue modulo the column's width. */
  lemma SignedResidue(c: Column, v: nat)
    requires Sized(c) && Integral(c.kind) && v < TWO_64
    ensures Signed(v, 8) % Pow256(c.size) == v % Pow256(c.size)
    ensures -(TWO_64 as int) <= 2 * Signed(v, 8) < TWO_64
  {
    var wide := Column(Int64, 0, 8);
    Widths(wide);
    SignedRange(wide, v);
    hide Pow256, Signed;
    WrapTwice(c, Signed(v, 8), 0);
    WrapTwice(c, v, 0);
  }

  /** Adding 64 bits wide and storing the column's bytes adds to what the column means. */
  lemma AddedMeans(c: Column, m: int, delta: int)
    requires Sized(c) && Integral(c.kind)
    ensures var p := Pow256(c.size); var v := (m % p + delta) % TWO_64;
            && Le(LeBytes(v, c.size)) == (m + delta) % p
            && Signed(v, 8) % p == (m + delta) % p
            && -(TWO_64 as int) <= 2 * Signed(v, 8) < TWO_64
  {
    hide Pow256, Signed, Le, LeBytes;
    var v := (m % Pow256(c.size) + delta) % TWO_64;
    WrapTwice(c, m, delta);
    LeBytesTruncates(v, c.size);
    SignedResidue(c, v);
  }

  /** The answer of an addition is explained by the log that ends with it. */
  lemma AddedExplained(cols: map<string, Column>, init: seq<Byte>, log: seq<Entry>, name: string, delta: int, r: int)
    requires Layout(cols, |init|) && name in cols && Integral(cols[name].kind)
    requires var p := Pow256(cols[name].size);
             r % p == (Meaning(Raw(init, cols[name]), log, name) + delta) % p && -(TWO_64 as int) <= 2 * r < TWO_64
    ensures Explained(cols, init, log + [Added(name, delta, r)], |log|)
  {
    hide Meaning, Pow256, Raw, Apart, Sized;
    var e := Added(name, delta, r);
    var longer := log + [e];
    assert longer[..|log| + 1] == longer && longer[|log|] == e;
    MeaningSnoc(Raw(init, cols[name]), log, e, name);
    var start := Raw(init, cols[name]);
    assert Meaning(start, longer[..|log| + 1], name) == Meaning(start, log, name) + delta;
  }

  lemma FinishAddKeeps(cols: map<string, Column>, init: seq<Byte>, s: State, w: nat, name: string, delta: int)
    requires Layout(cols, |init|) && Inv(cols, init, s)
    requires name in cols && Integral(cols[name].kind)
    ensures var t := FinishAdd(cols, s, w, name, delta, Raw(s.data, cols[name]));
            && Agrees(cols, init, t) && forall k :: 0 <= k < |t.log| ==> Explained(cols, init, t.log, k)
  {
    var c := cols[name];
    assert Sized(c);
    hide Meaning, Le, Pow256, Signed, LeBytes, Patch, Layout, Exclusive, Fresh, Explained;
    var v := (Raw(s.data, c) + delta) % TWO_64;
    var t := FinishAdd(cols, s, w, name, delta, Raw(s.data, c));
    var e := Added(name, delta, Signed(v, 8));
    var m := Meaning(Raw(init, c), s.log, name);
    AddedMeans(c, m, delta);
    MeaningSnoc(Raw(init, c), s.log, e, name);
    AgreesPatch(cols, init, s, t, name, LeBytes(v, c.size), e);
    AddedExplained(cols, init, s.log, name, delta, Signed(v, 8));
    ExplainedSnoc(cols, init, s.log, e);
  }

  lemma SetFirstKeeps(cols: map<string, Column>, init: seq<Byte>, s: State, w: nat, values: seq<(string, Value)>)
    requires Layout(cols, |init|) && Inv(cols, init, s) && values != []
    ensures var t := SetFirst(cols, s, w, values);
            && Agrees(cols, init, t) && forall k :: 0 <= k < |t.log| ==> Explained(cols, init, t.log, k)
  {
    var (name, v) := values[0];
    if name in cols {
      var c := cols[name];
      assert Sized(c);
      hide Meaning, Le, Pow256, LeBytes, Patch, Layout;
      var t := SetFirst(cols, s, w, values);
      var e := t.log[|s.log|];
      MeaningSnoc(Raw(init, c), s.log, e, name);
      if Integral(c.kind) {
        WrapTwice(c, v.long, 0);
        LeBytesTruncates(v.long % TWO_64, c.size);
      }
      AgreesPatch(cols, init, s, t, name, Stored(c, v), e);
      ExplainedSnoc(cols, init, s.log, e);
    }
  }

  lemma StartAddKeeps(
    cols: map<string, Column>, init: seq<Byte>, s: State, w: nat, name: string, delta: int, sum: Double)
    requires Layout(cols, |init|) && Inv(cols, init, s)
    ensures Agrees(cols, init, StartAdd(cols, s, w, name, delta, sum))
  {
    hide Meaning, Le, Pow256, Patch;
    var t := StartAdd(cols, s, w, name, delta, sum);
    if name in cols && cols[name].kind == Float {
      forall y <- cols | Integral(cols[y].kind) ensures Raw(t.data, cols[y]) == Raw(s.data, cols[y]) {
        PatchColumn(cols, s.data, name, sum, y);
      }
    }
  }

  lemma ReadKeeps(cols: map<string, Column>, init: seq<Byte>, s: State, w: nat, name: string)
    requires Layout(cols, |init|) && Inv(cols, init, s)
    ensures var t := Next(cols, s, Read(w, name));
            && Agrees(cols, init, t) && forall k :: 0 <= k < |t.log| ==> Explained(cols, init, t.log, k)
  {
    if PcOf(s, w) == Reading && name in cols && Integral(cols[name].kind) {
      var c := cols[name];
      assert Sized(c);
      hide Meaning, Le, Pow256, Signed, Layout, Exclusive, Fresh;
      var t := Next(cols, s, Read(w, name));
      var e := Got(name, Signed(Raw(s.data, c), c.size));
      assert t.log == s.log + [e];
      var m := Meaning(Raw(init, c), s.log, name);
      SignedRange(c, m);
      assert t.log[..|s.log|] == s.log;
      ExplainedSnoc(cols, init, s.log, e);
      forall y <- cols | Integral(cols[y].kind)
        ensures Meaning(Raw(init, cols[y]), t.log, y) == Meaning(Raw(init, cols[y]), s.log, y)
      {
        MeaningSnoc(Raw(init, cols[y]), s.log, e, y);
      }
    }
  }

  /** Only the holder of the lock moves, and only its last step gives the lock up. */
  lemma ExclusiveNext(cols: map<string, Column>, s: State, e: Event)
    requires Layout(cols, |s.data|) && Exclusive(s) && Fresh(cols, s)
    ensures var t := Next(cols, s, e); Exclusive(t) && Fresh(cols, t)
  {
    hide Le, Pow256, Patch, Signed, LeBytes, Layout, Stored;
    var t := Next(cols, s, e);
    if e.Go? && PcOf(s, e.w) != Idle {
      assert forall w <- t.pcs :: w != e.w ==> PcOf(s, w) == Idle;
    }
  }

  lemma NextKeeps(cols: map<string, Column>, init: seq<Byte>, s: State, e: Event)
    requires Layout(cols, |init|) && Inv(cols, init, s)
    ensures Inv(cols, init, Next(cols, s, e))
  {
    ExclusiveNext(cols, s, e);
    hide Meaning, Le, Pow256, Patch, Signed, LeBytes, Layout, Stored, Exclusive, Explained, SetFirst, FinishAdd;
    match e
    case Acquire(w, call, found) =>
    case Read(w, name) => ReadKeeps(cols, init, s, w, name);
    case Go(w, sum) =>
      match PcOf(s, w)
      case Adding(name, delta) => StartAddKeeps(cols, init, s, w, name, delta, sum);
      case Have(name, delta, value) => FinishAddKeeps(cols, init, s, w, name, delta);
      case Setting(values) => if values != [] { SetFirstKeeps(cols, init, s, w, values); }
      case _ =>
  }

  function Run(cols: map<string, Column>, s: State, es: seq<Event>): (r: State)
    requires Layout(cols, |s.data|)
    ensures |r.data| == |s.data|
    decreases |es|
  {
    if es == [] then s else Run(cols, Next(cols, s, es[0]), es[1..])
  }

  lemma {:induction false} RunKeeps(cols: map<string, Column>, init: seq<Byte>, s: State, es: seq<Event>)
    requires Layout(cols, |init|) && Inv(cols, init, s)
    ensures Inv(cols, init, Run(cols, s, es))
    decreases |es|
  {
    assert |s.data| == |init|;
    hide Inv, Next, Layout;
    if es != [] {
      NextKeeps(cols, init, s, es[0]);
      RunKeeps(cols, init, Next(cols, s, es[0]), es[1..]);
    }
  }

  function Initial(init: seq<Byte>): State {
    State(init, None, map[], [])
  }

  lemma InitialInv(cols: map<string, Column>, init: seq<Byte>)
    requires Layout(cols, |init|)
    ensures Inv(cols, init, Initial(init))
  {
    hide Le, Pow256;
    forall x <- cols | Integral(cols[x].kind) ensures Raw(init, cols[x]) == Raw(init, cols[x]) % Pow256(cols[x].size) {
      LeBound(init[cols[x].index..cols[x].index + cols[x].size]);
      ModOf(Raw(init, cols[x]), Pow256(cols[x].size), 0, Raw(init, cols[x]));
    }
    hide Layout, Raw;
  }

  /** The sum of the amounts added to a column. */
  function Deltas(log: seq<Entry>, name: string): int {
    if log == [] then 0
    else
      var last := log[|log| - 1];
      Deltas(log[..|log| - 1], name) + if last.Added? && last.name == name then last.delta else 0
  }

  lemma {:induction false} MeaningIsSum(start: int, log: seq<Entry>, name: string)
    requires forall k :: 0 <= k < |log| && log[k].Assigned? ==> log[k].name != name
    ensures Meaning(start, log, name) == start + Deltas(log, name)
  {
    if log != [] { MeaningIsSum(start, log[..|log| - 1], name); }
  }

  /** However processes interleave, the number get returns for a column nothing assigned to is in
      the range of the column and congruent to the initial number plus all that was added, and so
      is equal to it where it fits. */
  lemma CountersAdd(cols: map<string, Column>, init: seq<Byte>, es: seq<Event>, name: string)
    requires Layout(cols, |init|) && name in cols && Integral(cols[name].kind)
    requires var t := Run(cols, Initial(init), es);
             forall k :: 0 <= k < |t.log| && t.log[k].Assigned? ==> t.log[k].name != name
    ensures var t := Run(cols, Initial(init), es); var c := cols[name]; var p := Pow256(c.size);
            var exact := Signed(Raw(init, c), c.size) + Deltas(t.log, name); var got := Signed(Raw(t.data, c), c.size);
            && got % p == exact % p && -(p as int) <= 2 * got < p
            && (-(p as int) <= 2 * exact < p ==> got == exact)
  {
    hide Run, Meaning, Deltas, Signed, Pow256, Raw, Inv, Apart;
    var c, t := cols[name], Run(cols, Initial(init), es);
    assert Sized(c);
    InitialInv(cols, init);
    RunKeeps(cols, init, Initial(init), es);
    ColumnAgrees(cols, init, t, name);
    MeaningIsSum(Raw(init, c), t.log, name);
    SignedShift(c, Raw(init, c), Deltas(t.log, name));
    SignedRange(c, Signed(Raw(init, c), c.size) + Deltas(t.log, name));
  }

  lemma ColumnAgrees(cols: map<string, Column>, init: seq<Byte>, t: State, name: string)
    requires Layout(cols, |init|) && Inv(cols, init, t) && name in cols && Integral(cols[name].kind)
    ensures Sized(cols[name]) && |t.data| == |init|
    ensures Raw(t.data, cols[name]) == Meaning(Raw(init, cols[name]), t.log, name) % Pow256(cols[name].size)
  {
    hide Meaning, Pow256, Raw, Exclusive, Explained;
  }

  /** Taking a number as a signed one does not change sums modulo the width. */
  lemma SignedShift(c: Column, v: nat, d: int)
    requires Sized(c) && Integral(c.kind)
    ensures (Signed(v, c.size) + d) % Pow256(c.size) == (v + d) % Pow256(c.size)
  {
    hide Pow256;
    var p, a := Pow256(c.size), v + d;
    assert p > 0 by { Widths(c); }
    assert a == p * (a / p) + a % p;
    assert p * (a / p - 1) == p * (a / p) - p;
    ModOf(a - p, p, a / p - 1, a % p);
  }

  // ------------------------------------------------------------ the lock is given back

  /** Steps a process still makes before it gives the lock back. */
  function Left(pc: Pc): nat {
    match pc
    case Idle => 0
    case Leaving => 1
    case Reading => 2
    case Have(_, _, _) => 2
    case Adding(_, _) => 3
    case Setting(values) => |values| + 2
  }

  function Steps(w: nat, sums: seq<Double>): (es: seq<Event>)
    ensures |es| == |sums|
  {
    if sums == [] then [] else [Go(w, sums[0])] + Steps(w, sums[1..])
  }

  /** On every path of every call the holder releases the lock, and is then outside of it: no step
      skips the release or makes it twice. */
  lemma {:induction false} Releases(cols: map<string, Column>, init: seq<Byte>, s: State, w: nat, sums: seq<Double>)
    requires Layout(cols, |init|) && Inv(cols, init, s) && s.lock == Some(w)
    requires |sums| >= Left(PcOf(s, w))
    ensures exists n :: 0 < n <= Left(PcOf(s, w)) && Released(cols, s, w, sums, n)
    decreases |sums|
  {
    var e := Go(w, sums[0]);
    var t := Next(cols, s, e);
    NextKeeps(cols, init, s, e);
    assert Steps(w, sums[..1]) == [e];
    assert Run(cols, s, [e]) == t;
    if PcOf(s, w) == Leaving {
      assert Released(cols, s, w, sums, 1);
    } else {
      assert t.lock == Some(w) && Left(PcOf(t, w)) < Left(PcOf(s, w));
      Releases(cols, init, t, w, sums[1..]);
      var n :| 0 < n <= Left(PcOf(t, w)) && Released(cols, t, w, sums[1..], n);
      ReleasedLater(cols, s, w, sums, n);
    }
  }

  /** The lock is held through the first `n - 1` steps of its holder and free after the `n`th. */
  ghost predicate Released(cols: map<string, Column>, s: State, w: nat, sums: seq<Double>, n: nat)
    requires Layout(cols, |s.data|)
  {
    && 0 < n <= |sums|
    && (forall k :: 0 <= k < n ==> Run(cols, s, Steps(w, sums[..k])).lock == Some(w))
    && Run(cols, s, Steps(w, sums[..n])).lock == None
    && PcOf(Run(cols, s, Steps(w, sums[..n])), w) == Idle
  }

  lemma StepsCons(cols: map<string, Column>, s: State, w: nat, sums: seq<Double>, k: nat)
    requires Layout(cols, |s.data|) && k < |sums|
    ensures Run(cols, s, Steps(w, sums[..k + 1])) == Run(cols, Next(cols, s, Go(w, sums[0])), Steps(w, sums[1..][..k]))
  {
    assert sums[..k + 1][1..] == sums[1..][..k];
    assert Steps(w, sums[..k + 1])[1..] == Steps(w, sums[1..][..k]);
  }

  lemma ReleasedLater(cols: map<string, Column>, s: State, w: nat, sums: seq<Double>, n: nat)
    requires Layout(cols, |s.data|) && s.lock == Some(w) && sums != []
    requires Released(cols, Next(cols, s, Go(w, sums[0])), w, sums[1..], n)
    ensures Released(cols, s, w, sums, n + 1)
  {
    hide Next, Layout;
    forall k | 0 <= k < n + 1 ensures Run(cols, s, Steps(w, sums[..k])).lock == Some(w) {
      if k > 0 { StepsCons(cols, s, w, sums, k - 1); }
    }
    StepsCons(cols, s, w, sums, n);
  }

  // ------------------------------------------------------------------- a row in place

  lemma PatchNext(data: seq<Byte>, at: nat, bs: seq<Byte>, i: nat)
    requires at + |bs| <= |data| && i < |bs|
    ensures Patch(data, at, bs[..i])[at + i := bs[i]] == Patch(data, at, bs[..i + 1])
  {
    assert bs[..i + 1] == bs[..i] + [bs[i]];
  }

  /** What set makes of a row's bytes. */
  function SetAll(cols: map<string, Column>, data: seq<Byte>, values: seq<(string, Value)>): (r: seq<Byte>)
    requires Layout(cols, |data|)
    ensures |r| == |data|
  {
    if values == [] then data
    else
      var before := SetAll(cols, data, values[..|values| - 1]);
      var (name, v) := values[|values| - 1];
      if name in cols then Patch(before, cols[name].index, Stored(cols[name], v)) else before
  }

  /** set names every column it is given a value for once; then each holds its value, and the rest
      hold what they did. */
  lemma {:induction false} SetAllReads(
    cols: map<string, Column>, data: seq<Byte>, values: seq<(string, Value)>, name: string)
    requires Layout(cols, |data|) && name in cols && Integral(cols[name].kind)
    requires forall i, j :: 0 <= i < j < |values| ==> values[i].0 != values[j].0
    ensures forall k :: 0 <= k < |values| && values[k].0 == name ==>
              Raw(SetAll(cols, data, values), cols[name]) == values[k].1.long % Pow256(cols[name].size)
    ensures (forall k :: 0 <= k < |values| ==> values[k].0 != name) ==>
              Raw(SetAll(cols, data, values), cols[name]) == Raw(data, cols[name])
  {
    var c := cols[name];
    assert Sized(c);
    hide Le, Pow256, LeBytes, Patch;
    if values != [] {
      var init := values[..|values| - 1];
      SetAllReads(cols, data, init, name);
      var (x, v) := values[|values| - 1];
      if x in cols {
        PatchColumn(cols, SetAll(cols, data, init), x, Stored(cols[x], v), name);
        WrapTwice(c, v.long, 0);
        LeBytesTruncates(v.long % TWO_64, c.size);
      }
      assert forall k :: 0 <= k < |init| ==> values[k] == init[k];
    }
  }

  function BytesOf(data: seq<Byte>, c: Column): seq<Byte>
    requires c.index + c.size <= |data|
  {
    data[c.index..c.index + c.size]
  }

  /** The bytes of a column of any kind after set: those of a row, `before`, into which its value was just
      stored, or if it is given none, those it had. */
  lemma {:induction false} SetAllBytes(
    cols: map<string, Column>, data: seq<Byte>, values: seq<(string, Value)>, name: string)
    returns (before: seq<Byte>)
    requires Layout(cols, |data|) && name in cols
    requires forall i, j :: 0 <= i < j < |values| ==> values[i].0 != values[j].0
    ensures |before| == |data|
    ensures forall k :: 0 <= k < |values| && values[k].0 == name ==>
              BytesOf(SetAll(cols, data, values), cols[name])
              == BytesOf(Patch(before, cols[name].index, Stored(cols[name], values[k].1)), cols[name])
    ensures (forall k :: 0 <= k < |values| ==> values[k].0 != name) ==>
              BytesOf(SetAll(cols, data, values), cols[name]) == BytesOf(data, cols[name])
  {
    hide Stored, Patch;
    before := data;
    if values != [] {
      var init := values[..|values| - 1];
      assert forall k :: 0 <= k < |init| ==> values[k] == init[k];
      var all := SetAll(cols, data, init);
      var (x, v) := values[|values| - 1];
      if x == name {
        before := all;
      } else {
        before := SetAllBytes(cols, data, init, name);
        if x in cols {
          assert Apart(cols[x], cols[name]);
          var c := cols[name];
          PatchReads(all, cols[x].index, Stored(cols[x], v), c.index, c.index + c.size);
        }
      }
    }
  }

  /** So after set a float column that is given a value holds its eight bytes, and get reads from a
      text column the text, cut to its room. */
  lemma SetAllGives(cols: map<string, Column>, data: seq<Byte>, values: seq<(string, Value)>, k: nat)
    requires Layout(cols, |data|) && k < |values| && values[k].0 in cols
    requires forall i, j :: 0 <= i < j < |values| ==> values[i].0 != values[j].0
    ensures var c, v, r := cols[values[k].0], values[k].1, SetAll(cols, data, values);
            && (c.kind == Float ==> r[c.index..c.index + 8] == v.double)
            && (c.kind == Text && c.size < 0x1_0000_0000 ==>
                  GetText(r, c) == Some(if |v.text| > c.size - 4 then v.text[..c.size - 4] else v.text))
  {
    var c, v, r := cols[values[k].0], values[k].1, SetAll(cols, data, values);
    assert Sized(c);
    var before := SetAllBytes(cols, data, values, values[k].0);
    var p := Patch(before, c.index, Stored(c, v));
    if c.kind == Float {
      PatchReads(before, c.index, Stored(c, v), c.index, c.index + 8);
    } else if c.kind == Text && c.size < 0x1_0000_0000 {
      TextRoundTrip(before, c, v);
      hide SetAll, Patch, Stored, Le, Layout;
      SameText(p, r, c);
    }
  }

  /** What get reads from a text column depends on the bytes of the column. */
  lemma SameText(p: seq<Byte>, r: seq<Byte>, c: Column)
    requires Sized(c) && c.kind == Text && c.index + c.size <= |p| && |r| == |p| && BytesOf(p, c) == BytesOf(r, c)
    requires GetText(p, c).Some? && |GetText(p, c).value| <= c.size - 4
    ensures GetText(r, c) == GetText(p, c)
  {
    hide Le;
    SliceOfSlice(p, c.index, c.index + c.size, 0, 4);
    SliceOfSlice(r, c.index, c.index + c.size, 0, 4);
    var n := Le(p[c.index..c.index + 4]);
    SliceOfSlice(p, c.index, c.index + c.size, 4, 4 + n);
    SliceOfSlice(r, c.index, c.index + c.size, 4, 4 + n);
  }

  /** A process that sets values does to the row, step by step, what set does at once. */
  lemma {:induction false} SetSteps(cols: map<string, Column>, s: State, w: nat, sums: seq<Double>)
    requires Layout(cols, |s.data|) && PcOf(s, w).Setting? && |sums| == |PcOf(s, w).values|
    ensures var t := Run(cols, s, Steps(w, sums));
            t.data == SetAll(cols, s.data, PcOf(s, w).values) && t.lock == s.lock && PcOf(t, w) == Setting([])
    decreases |sums|
  {
    hide Stored, Patch;
    var values := PcOf(s, w).values;
    if sums != [] {
      var t := Next(cols, s, Go(w, sums[0]));
      assert Steps(w, sums)[0] == Go(w, sums[0]) && Steps(w, sums)[1..] == Steps(w, sums[1..]);
      SetSteps(cols, t, w, sums[1..]);
      SetAllHead(cols, s.data, values);
    }
  }

  lemma {:induction false} SetAllHead(cols: map<string, Column>, data: seq<Byte>, values: seq<(string, Value)>)
    requires Layout(cols, |data|) && values != []
    ensures SetAll(cols, data, values) == SetAll(cols, SetAll(cols, data, values[..1]), values[1..])
    decreases |values|
  {
    hide Stored, Patch;
    if |values| > 1 {
      var init := values[..|values| - 1];
      SetAllHead(cols, data, init);
      assert init[..1] == values[..1] && values[1..][..|values| - 2] == init[1..];
    } else {
      assert values[..1] == values && values[1..] == [];
    }
  }

  /** A process that adds to a float column stores the sum there, and nothing else. */
  lemma FloatStep(cols: map<string, Column>, s: State, w: nat, sum: Double, name: string)
    requires Layout(cols, |s.data|) && PcOf(s, w).Adding? && PcOf(s, w).name == name
    requires name in cols && cols[name].kind == Float
    ensures var t := Next(cols, s, Go(w, sum));
            && BytesOf(t.data, cols[name]) == sum && t.lock == s.lock && t.log == s.log && PcOf(t, w) == Leaving
            && forall x <- cols :: x != name ==> BytesOf(t.data, cols[x]) == BytesOf(s.data, cols[x])
  {
    hide Patch;
    var c := cols[name];
    assert Sized(c);
    PatchReads(s.data, c.index, sum, c.index, c.index + c.size);
    forall x <- cols | x != name
      ensures BytesOf(Patch(s.data, c.index, sum), cols[x]) == BytesOf(s.data, cols[x])
    {
      assert Apart(c, cols[x]);
      PatchReads(s.data, c.index, sum, cols[x].index, cols[x].index + cols[x].size);
    }
  }

  datatype Answer = No | Whole(value: int) | Real(sum: Double)

  /** `now` is `was` with `delta` added to column `name` modulo its width, every other column
      unchanged, and `r` is a 64-bit number congruent to the new one. */
  ghost predicate Sum(cols: map<string, Column>, was: seq<Byte>, now: seq<Byte>, name: string, delta: int, r: int)
    requires Layout(cols, |was|) && |now| == |was| && name in cols
  {
    var c := cols[name];
    && r % Pow256(c.size) == Raw(now, c) == (Raw(was, c) + delta) % Pow256(c.size)
    && -(TWO_64 as int) <= 2 * r < TWO_64
    && forall x <- cols :: x != name ==> Raw(now, cols[x]) == Raw(was, cols[x])
  }

  /** What incr has done and answered. */
  ghost predicate Answered(
    cols: map<string, Column>, was: seq<Byte>, now: seq<Byte>, name: string, delta: int, sum: Double, found: bool,
    r: Answer)
    requires Layout(cols, |was|) && |now| == |was|
  {
    match r
    case No => now == was && (!found || name !in cols || cols[name].kind == Text)
    case Real(x) =>
      && found && name in cols && cols[name].kind == Float && x == sum
      && now == Patch(was, cols[name].index, sum)
    case Whole(x) => found && name in cols && Integral(cols[name].kind) && Sum(cols, was, now, name, delta, x)
  }

  class Row {
    const cols: map<string, Column>
    const data: array<Byte>
    var locked: bool
    ghost var releases: nat

    ghost predicate Valid()
      reads this
    {
      Layout(cols, data.Length) && !locked
    }

    constructor (cols: map<string, Column>, n: nat)
      requires Layout(cols, n)
      ensures Valid() && this.cols == cols && data.Length == n && fresh(data) && releases == 0
      ensures forall k :: 0 <= k < n ==> data[k] == 0
    {
      this.cols := cols;
      this.data := new Byte[n](_ => 0);
      locked, releases := false, 0;
    }

    method Release()
      requires locked
      modifies this
      ensures !locked && releases == old(releases) + 1
    {
      locked, releases := false, releases + 1;
    }

    /** memcpy into the row. */
    method Copy(at: nat, bs: seq<Byte>)
      requires at + |bs| <= data.Length
      modifies data
      ensures data[..] == Patch(old(data[..]), at, bs)
    {
      var i := 0;
      while i < |bs|
        invariant 0 <= i <= |bs|
        invariant data[..] == Patch(old(data[..]), at, bs[..i])
      {
        PatchNext(old(data[..]), at, bs, i);
        data[at + i] := bs[i];
        i := i + 1;
      }
      assert bs[..|bs|] == bs;
    }

    /** swoole_table::set; `found` tells whether there is a row for the key. */
    method SetValues(values: seq<(string, Value)>, found: bool) returns (ok: bool)
      requires Valid()
      modifies this, data
      ensures Valid() && releases == old(releases) + 1 && ok == found
      ensures data[..] == if found then SetAll(cols, old(data[..]), values) else old(data[..])
    {
      locked := true;
      if !found {
        Release();
        return false;
      }
      var i := 0;
      while i < |values|
        invariant 0 <= i <= |values| && locked && releases == old(releases)
        invariant data[..] == SetAll(cols, old(data[..]), values[..i])
      {
        var (name, v) := values[i];
        if name in cols { Copy(cols[name].index, Stored(cols[name], v)); }
        i := i + 1;
        assert values[..i][..i - 1] == values[..i - 1];
      }
      assert values[..|values|] == values;
      Release();
      return true;
    }

    /** incr on an integer column, inside the lock. */
    method AddWhole(name: string, delta: int) returns (r: int)
      requires Layout(cols, data.Length) && name in cols && Integral(cols[name].kind)
      modifies data
      ensures Sum(cols, old(data[..]), data[..], name, delta, r)
    {
      var c := cols[name];
      var value := (Le(data[c.index..c.index + c.size]) + delta) % TWO_64;
      assert data[..][c.index..c.index + c.size] == data[c.index..c.index + c.size];
      IncrMeans(cols, data[..], name, delta);
      hide Pow256, Le, LeBytes, Patch, Signed, Layout, Raw;
      Copy(c.index, LeBytes(value, c.size));
      r := Signed(value, 8);
    }

    /** swoole_table::incr. `sum` is the floating-point sum, used on a float column only. */
    method Incr(name: string, delta: int, sum: Double, found: bool) returns (r: Answer)
      requires Valid()
      modifies this, data
      ensures Valid() && releases == old(releases) + 1
      ensures Answered(cols, old(data[..]), data[..], name, delta, sum, found, r)
    {
      hide Sum, Patch;
      locked := true;
      if !found || name !in cols || cols[name].kind == Text {
        Release();
        return No;
      }
      var c := cols[name];
      if c.kind == Float {
        Copy(c.index, sum);
        r := Real(sum);
      } else {
        var value := AddWhole(name, delta);
        r := Whole(value);
      }
      Release();
    }

    /** swoole_table::decr. */
    method Decr(name: string, delta: int, difference: Double, found: bool) returns (r: Answer)
      requires Valid()
      modifies this, data
      ensures Valid() && releases == old(releases) + 1
      ensures Answered(cols, old(data[..]), data[..], name, -delta, difference, found, r)
    {
      r := Incr(name, -delta, difference, found);
    }

    /** swoole_table::get, on one integer column. */
    method GetWhole(name: string, found: bool) returns (r: Option<int>)
      requires Valid() && name in cols && Integral(cols[name].kind)
      modifies this
      ensures Valid() && releases == old(releases) + 1
      ensures r.Some? <==> found
      ensures r.Some? ==>
                var c := cols[name]; var p := Pow256(c.size);
                r.value % p == Raw(data[..], c) % p && -(p as int) <= 2 * r.value < p
    {
      locked := true;
      if !found {
        r := None;
      } else {
        var c := cols[name];
        var bs := data[c.index..c.index + c.size];
        r := Some(Signed(Le(bs), c.size));
        GetMeans(c, bs);
        assert data[..][c.index..c.index + c.size] == bs;
      }
      Release();
    }
  }

  lemma GetMeans(c: Column, bs: seq<Byte>)
    requires Sized(c) && Integral(c.kind) && |bs| == c.size
    ensures var p := Pow256(c.size); var x := Signed(Le(bs), c.size); x % p == Le(bs) % p && -(p as int) <= 2 * x < p
  {
    LeBound(bs);
    ModOf(Le(bs), Pow256(c.size), 0, Le(bs));
    SignedRange(c, Le(bs));
  }

  lemma IncrMeans(cols: map<string, Column>, data: seq<Byte>, name: string, delta: int)
    requires Layout(cols, |data|) && name in cols && Integral(cols[name].kind)
    ensures var c := cols[name]; var v := (Raw(data, c) + delta) % TWO_64;
            Sum(cols, data, Patch(data, c.index, LeBytes(v, c.size)), name, delta, Signed(v, 8))
  {
    var c := cols[name];
    assert Sized(c);
    hide Pow256, Le, LeBytes, Patch, Signed;
    LeBound(data[c.index..c.index + c.size]);
    ModOf(Raw(data, c), Pow256(c.size), 0, Raw(data, c));
    AddedMeans(c, Raw(data, c), delta);
    var bs := LeBytes((Raw(data, c) + delta) % TWO_64, c.size);
    forall x <- cols ensures x != name ==> Raw(Patch(data, c.index, bs), cols[x]) == Raw(data, cols[x]) {
      PatchColumn(cols, data, name, bs, x);
    }
    PatchColumn(cols, data, name, bs, name);
  }
}
