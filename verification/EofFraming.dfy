/**
  * The delimiter-framed receive of swoole_client::recv: a residue buffer that doubles
  * up to a maximum, refilled by recv(2) in pieces of any size. It refines cutting the
  * received stream at the first occurrences of the delimiter.
  */
module EofFraming {
  import opened Options
  import opened Bytes

  const BUFFER_SIZE: nat := 65536   // SW_BUFFER_SIZE_BIG
  const EOF_MAX: nat := 8           // SW_DATA_EOF_MAXLEN

  // ------------------------------------------------------ cutting a stream, on values

  predicate OccursAt(s: seq<Byte>, eof: seq<Byte>, i: nat) {
    i + |eof| <= |s| && s[i..i + |eof|] == eof
  }

  ghost predicate NoEofBefore(s: seq<Byte>, eof: seq<Byte>, n: nat) {
    forall i: nat :: i < n ==> !OccursAt(s, eof, i)
  }

  ghost predicate HasEof(s: seq<Byte>, eof: seq<Byte>) {
    exists i: nat :: OccursAt(s, eof, i)
  }

  /** A piece of the stream that ends with the delimiter and holds it nowhere earlier. */
  ghost predicate Segment(p: seq<Byte>, eof: seq<Byte>) {
    |p| >= |eof| && OccursAt(p, eof, |p| - |eof|) && NoEofBefore(p, eof, |p| - |eof|)
  }

  ghost predicate Segments(ps: seq<seq<Byte>>, eof: seq<Byte>) {
    forall k :: 0 <= k < |ps| ==> Segment(ps[k], eof)
  }

  /** Where the first delimiter from `i` on starts. */
  function Find(s: seq<Byte>, eof: seq<Byte>, i: nat): (r: Option<nat>)
    ensures r.Some? ==> i <= r.value && OccursAt(s, eof, r.value)
    decreases |s| - i
  {
    if i + |eof| > |s| then None
    else if OccursAt(s, eof, i) then Some(i)
    else Find(s, eof, i + 1)
  }

  /** The stream cut behind every first delimiter: the reference. */
  function Split(s: seq<Byte>, eof: seq<Byte>): seq<seq<Byte>>
    requires eof != []
    decreases |s|
  {
    match Find(s, eof, 0)
    case None => []
    case Some(i) => [s[..i + |eof|]] + Split(s[i + |eof|..], eof)
  }

  lemma {:induction false} FindIs(s: seq<Byte>, eof: seq<Byte>, i: nat, j: nat)
    requires i <= j && OccursAt(s, eof, j)
    requires forall k: nat :: i <= k < j ==> !OccursAt(s, eof, k)
    ensures Find(s, eof, i) == Some(j)
    decreases j - i
  {
    if i < j {
      FindIs(s, eof, i + 1, j);
    }
  }

  lemma {:induction false} FindNone(s: seq<Byte>, eof: seq<Byte>, i: nat)
    requires forall k: nat :: i <= k ==> !OccursAt(s, eof, k)
    ensures Find(s, eof, i) == None
    decreases |s| - i
  {
    if i + |eof| <= |s| { FindNone(s, eof, i + 1); }
  }

  /** A stream has a first cut exactly if the delimiter stands in it. */
  lemma CutsIffHasEof(s: seq<Byte>, eof: seq<Byte>)
    requires eof != []
    ensures Split(s, eof) == [] <==> !HasEof(s, eof)
    ensures Find(s, eof, 0).None? <==> !HasEof(s, eof)
  {
    if !HasEof(s, eof) { FindNone(s, eof, 0); } else { FirstOccurrence(s, eof); }
  }

  lemma FirstOccurrence(s: seq<Byte>, eof: seq<Byte>)
    requires HasEof(s, eof)
    ensures Find(s, eof, 0).Some?
  {
    var i: nat :| OccursAt(s, eof, i);
    FoundBy(s, eof, 0, i);
  }

  lemma {:induction false} FoundBy(s: seq<Byte>, eof: seq<Byte>, i: nat, j: nat)
    requires i <= j && OccursAt(s, eof, j)
    ensures Find(s, eof, i).Some?
    decreases j - i
  {
    if i < j { FoundBy(s, eof, i + 1, j); }
  }

  /** Occurrences inside `a` are the occurrences of `a + b` that end inside `a`. */
  lemma OccursInPrefix(a: seq<Byte>, b: seq<Byte>, eof: seq<Byte>, i: nat)
    requires i + |eof| <= |a|
    ensures OccursAt(a + b, eof, i) <==> OccursAt(a, eof, i)
  {
    assert (a + b)[i..i + |eof|] == a[i..i + |eof|];
  }

  lemma SplitHead(p: seq<Byte>, rest: seq<Byte>, eof: seq<Byte>)
    requires eof != [] && Segment(p, eof)
    ensures Split(p + rest, eof) == [p] + Split(rest, eof)
  {
    var s, j := p + rest, |p| - |eof|;
    OccursInPrefix(p, rest, eof, j);
    forall k: nat | k < j ensures !OccursAt(s, eof, k) {
      OccursInPrefix(p, rest, eof, k);
    }
    FindIs(s, eof, 0, j);
    assert s[..|p|] == p && s[|p|..] == rest;
  }

  /** What was returned, followed by the cuts of what is left, are the cuts of the stream. */
  lemma {:induction false} SplitStream(ps: seq<seq<Byte>>, rest: seq<Byte>, eof: seq<Byte>)
    requires eof != [] && Segments(ps, eof)
    ensures Split(Flatten(ps) + rest, eof) == ps + Split(rest, eof)
    decreases |ps|
  {
    hide Split, Segment;
    if ps == [] {
      assert Flatten(ps) + rest == rest;
    } else {
      SplitStream(ps[1..], rest, eof);
      assert Flatten(ps) + rest == ps[0] + (Flatten(ps[1..]) + rest);
      SplitHead(ps[0], Flatten(ps[1..]) + rest, eof);
      assert ps + Split(rest, eof) == [ps[0]] + (ps[1..] + Split(rest, eof));
    }
  }

  // ------------------------------------------------------------- the buffer, on values

  /** The buffer with its size; what has arrived since it was last emptied, and what has been
      returned of that; packages dropped so far; and whether a residue did not fit the temporary
      it is moved through, after which nothing is described. */
  datatype State = State(
    data: seq<Byte>, size: nat, received: seq<Byte>, returned: seq<seq<Byte>>,
    lost: seq<seq<Byte>>, overrun: bool)

  /** What recv(2) does: it brings bytes, or fails or reports the end, which empties the buffer. */
  datatype Input = Arrives(bytes: seq<Byte>) | Drops

  function Start(): State {
    State([], BUFFER_SIZE, [], [], [], false)
  }

  function Emptied(s: State): State {
    s.(data := [], received := [], returned := [])
  }

  function Least(a: nat, b: nat): nat {
    if a <= b then a else b
  }

  /** What the loop makes of the buffer once bytes have arrived. */
  function Look(s: State, eof: seq<Byte>, max: nat): State {
    if |s.data| < |eof| then s
    else match Find(s.data, eof, 0)
    case Some(i) =>
      var n := i + |eof|;
      if |s.data| - n > BUFFER_SIZE then s.(overrun := true)
      else s.(data := s.data[n..], returned := s.returned + [s.data[..n]])
    case None =>
      if |s.data| == max then Emptied(s)
      else if |s.data| == s.size && s.size < max then s.(size := Least(2 * s.size, max))
      else s
  }

  function Next(s: State, i: Input, eof: seq<Byte>, max: nat): State
    requires eof != []
  {
    if s.overrun then s
    else match i
         case Arrives(b) => Look(s.(data := s.data + b, received := s.received + b), eof, max)
         case Drops => Emptied(s).(lost := s.lost + Split(s.data, eof))
  }

  function Run(s: State, ins: seq<Input>, eof: seq<Byte>, max: nat): State
    requires eof != []
    decreases |ins|
  {
    if ins == [] then s else Run(Next(s, ins[0], eof, max), ins[1..], eof, max)
  }

  /** recv(2) brings no more than it is asked for. */
  ghost predicate Fits(s: State, i: Input) {
    i.Arrives? ==> 0 < |i.bytes| <= BUFFER_SIZE && |s.data| + |i.bytes| <= s.size
  }

  ghost predicate Feasible(s: State, ins: seq<Input>, eof: seq<Byte>, max: nat)
    requires eof != []
    decreases |ins|
  {
    ins != [] ==> Fits(s, ins[0]) && Feasible(Next(s, ins[0], eof, max), ins[1..], eof, max)
  }

  /** The size never passes the greater of the first size and the maximum, and the data the size. */
  ghost predicate Bounded(s: State, max: nat) {
    |s.data| <= s.size && BUFFER_SIZE <= s.size && (s.size == BUFFER_SIZE || s.size <= max)
  }

  lemma NextBounded(s: State, i: Input, eof: seq<Byte>, max: nat)
    requires eof != [] && Bounded(s, max) && Fits(s, i)
    ensures Bounded(Next(s, i, eof, max), max)
    ensures max <= BUFFER_SIZE + |eof| && !s.overrun ==> !Next(s, i, eof, max).overrun
  {
    hide Find, Split;
  }

  lemma {:induction false} RunFits(s: State, ins: seq<Input>, eof: seq<Byte>, max: nat)
    requires eof != [] && Bounded(s, max) && Feasible(s, ins, eof, max)
    requires max <= BUFFER_SIZE + |eof| && !s.overrun
    ensures !Run(s, ins, eof, max).overrun
    decreases |ins|
  {
    hide Next, Bounded;
    if ins != [] {
      NextBounded(s, ins[0], eof, max);
      RunFits(Next(s, ins[0], eof, max), ins[1..], eof, max);
    }
  }

  function Repeat(x: Byte, n: nat): (r: seq<Byte>)
    ensures |r| == n
  {
    seq(n, _ => x)
  }

  /** A byte that is not the last of the delimiter: repeated, it never makes one. */
  function Filler(eof: seq<Byte>): (x: Byte)
    requires eof != []
    ensures x != eof[|eof| - 1]
  {
    if eof[|eof| - 1] == 0 then 1 else 0
  }

  lemma FillerHasNoEof(eof: seq<Byte>, n: nat)
    requires eof != []
    ensures Find(Repeat(Filler(eof), n), eof, 0) == None
  {
    var s := Repeat(Filler(eof), n);
    forall k: nat ensures !OccursAt(s, eof, k) {
      assert k + |eof| <= |s| ==> s[k..k + |eof|][|eof| - 1] == Filler(eof);
    }
    FindNone(s, eof, 0);
  }

  /** A full buffer without delimiter, a failure, a buffer full of packages, and a few bytes more. */
  function LongResidue(eof: seq<Byte>): seq<Input>
    requires 0 < |eof| <= EOF_MAX
  {
    var x := Filler(eof);
    [Arrives(Repeat(x, BUFFER_SIZE)), Drops,
     Arrives(eof + (eof + Repeat(x, BUFFER_SIZE - 2 * |eof|))), Arrives(Repeat(x, 2 * |eof| + 1))]
  }

  lemma StartsWithEof(eof: seq<Byte>, rest: seq<Byte>)
    requires eof != []
    ensures Find(eof + rest, eof, 0) == Some(0)
  {
    assert (eof + rest)[0..|eof|] == eof;
  }

  /** Bytes that complete the delimiter in front: the rest stays, if it fits the temporary. */
  lemma NextFound(s: State, b: seq<Byte>, rest: seq<Byte>, eof: seq<Byte>, max: nat)
    requires eof != [] && !s.overrun && s.data + b == eof + rest
    ensures var t := Next(s, Arrives(b), eof, max);
            && t.size == s.size && t.lost == s.lost && t.overrun == (|rest| > BUFFER_SIZE)
            && (!t.overrun ==> t.data == rest && t.returned == s.returned + [eof])
  {
    hide Find;
    StartsWithEof(eof, rest);
    assert (eof + rest)[|eof|..] == rest && (eof + rest)[..|eof|] == eof;
  }

  /** The first delivery of `LongResidue` and the failure behind it leave an empty, larger buffer. */
  lemma LargerBuffer(eof: seq<Byte>, max: nat)
    requires 0 < |eof| <= EOF_MAX && max > BUFFER_SIZE
    ensures var s1 := Next(Start(), Arrives(Repeat(Filler(eof), BUFFER_SIZE)), eof, max);
            var s2 := Next(s1, Drops, eof, max);
            !s2.overrun && s2.data == [] && s2.size == Least(2 * BUFFER_SIZE, max)
  {
    hide Find, Repeat, Filler, Split;
    var bytes := Repeat(Filler(eof), BUFFER_SIZE);
    FillerHasNoEof(eof, BUFFER_SIZE);
    assert [] + bytes == bytes;
  }

  lemma LongResidueOverruns(eof: seq<Byte>, max: nat)
    requires 0 < |eof| <= 8 && max > 65536 + |eof|
    ensures Feasible(Start(), LongResidue(eof), eof, max) && Run(Start(), LongResidue(eof), eof, max).overrun
  {
    hide Find, Split, Repeat, Filler, Next;
    var x := Filler(eof);
    var ins := LongResidue(eof);
    var fill, few := Repeat(x, BUFFER_SIZE - 2 * |eof|), Repeat(x, 2 * |eof| + 1);
    var s1 := Next(Start(), ins[0], eof, max);
    var s2 := Next(s1, ins[1], eof, max);
    LargerBuffer(eof, max);
    assert s2.data + (eof + (eof + fill)) == eof + (eof + fill);
    NextFound(s2, eof + (eof + fill), eof + fill, eof, max);
    var s3 := Next(s2, ins[2], eof, max);
    assert s3.data + few == eof + (fill + few);
    NextFound(s3, few, fill + few, eof, max);
    FourSteps(Start(), s1, s2, s3, Next(s3, ins[3], eof, max), ins, eof, max);
  }

  lemma FourSteps(s0: State, s1: State, s2: State, s3: State, s4: State, ins: seq<Input>, eof: seq<Byte>, max: nat)
    requires eof != [] && |ins| == 4
    requires Fits(s0, ins[0]) && Fits(s1, ins[1]) && Fits(s2, ins[2]) && Fits(s3, ins[3])
    requires s1 == Next(s0, ins[0], eof, max) && s2 == Next(s1, ins[1], eof, max)
    requires s3 == Next(s2, ins[2], eof, max) && s4 == Next(s3, ins[3], eof, max)
    ensures Feasible(s0, ins, eof, max) && Run(s0, ins, eof, max) == s4
  {
    hide Next, Fits;
    assert ins[1..][1..] == ins[2..] && ins[2..][1..] == ins[3..] && ins[3..][1..] == [];
    assert Run(s4, [], eof, max) == s4;
    assert Run(s3, ins[3..], eof, max) == s4 && Feasible(s3, ins[3..], eof, max);
    assert Run(s2, ins[2..], eof, max) == s4 && Feasible(s2, ins[2..], eof, max);
    assert Run(s1, ins[1..], eof, max) == s4 && Feasible(s1, ins[1..], eof, max);
  }

  /** The residue always fits the temporary it is moved through, in every run, if and only if the
      maximum length is at most the temporary's size and one delimiter. */
  lemma ResidueFitsIff(eof: seq<Byte>, max: nat)
    requires 0 < |eof| <= 8
    ensures (forall ins: seq<Input> :: Feasible(Start(), ins, eof, max) ==> !Run(Start(), ins, eof, max).overrun)
            <==> max <= 65536 + |eof|
  {
    hide Next;
    if max <= BUFFER_SIZE + |eof| {
      forall ins: seq<Input> | Feasible(Start(), ins, eof, max) ensures !Run(Start(), ins, eof, max).overrun {
        RunFits(Start(), ins, eof, max);
      }
    } else {
      LongResidueOverruns(eof, max);
    }
  }

  /** What a failure or the end of the connection drops: the packages of the stream that have not
      been returned. */
  lemma DropLoses(s: State, eof: seq<Byte>, max: nat)
    requires eof != [] && !s.overrun && s.received == Flatten(s.returned) + s.data && Segments(s.returned, eof)
    ensures var t := Next(s, Drops, eof, max);
            && Split(s.received, eof) == s.returned + Split(s.data, eof)
            && t.lost == s.lost + Split(s.received, eof)[|s.returned|..]
            && (t.lost == s.lost <==> !HasEof(s.data, eof))
  {
    hide Segment, HasEof, Find;
    SplitStream(s.returned, s.data, eof);
    CutsIffHasEof(s.data, eof);
    if Split(s.data, eof) != [] { assert |s.lost + Split(s.data, eof)| > |s.lost|; }
  }

  /** Two packages in one delivery, one call, and the end of the connection: one is lost. */
  lemma SecondPackageLost(eof: seq<Byte>, max: nat)
    requires 0 < |eof| <= EOF_MAX
    ensures var ins := [Arrives(eof + eof), Drops];
            && Feasible(Start(), ins, eof, max)
            && Next(Start(), ins[0], eof, max).returned == [eof]
            && Run(Start(), ins, eof, max).lost == [eof]
  {
    hide Find, Next, Split;
    var ins := [Arrives(eof + eof), Drops];
    var s0 := Start();
    var s1 := Next(s0, ins[0], eof, max);
    assert s0.data + (eof + eof) == eof + eof;
    NextFound(s0, eof + eof, eof, eof, max);
    var s2 := Next(s1, ins[1], eof, max);
    OnePackage(eof);
    Dropped(s1, eof, max);
    TwoSteps(s0, s1, s2, ins, eof, max);
  }

  lemma Dropped(s: State, eof: seq<Byte>, max: nat)
    requires eof != [] && !s.overrun
    ensures Next(s, Drops, eof, max).lost == s.lost + Split(s.data, eof)
  {
  }

  lemma OnePackage(eof: seq<Byte>)
    requires eof != []
    ensures Split(eof, eof) == [eof]
  {
    StartsWithEof(eof, []);
    FindNone([], eof, 0);
    assert eof + [] == eof && eof[|eof|..] == [];
  }

  lemma TwoSteps(s0: State, s1: State, s2: State, ins: seq<Input>, eof: seq<Byte>, max: nat)
    requires eof != [] && |ins| == 2 && Fits(s0, ins[0]) && Fits(s1, ins[1])
    requires s1 == Next(s0, ins[0], eof, max) && s2 == Next(s1, ins[1], eof, max)
    ensures Feasible(s0, ins, eof, max) && Run(s0, ins, eof, max) == s2
  {
    hide Next, Fits;
    assert ins[1..][1..] == [];
    assert Run(s2, [], eof, max) == s2 && Feasible(s2, [], eof, max);
    assert Run(s1, ins[1..], eof, max) == s2 && Feasible(s1, ins[1..], eof, max);
  }

  // ---------------------------------------------------------------------- the socket

  datatype Event = Data(bytes: seq<Byte>) | Failure | Close

  datatype Received = Bytes(bytes: seq<Byte>) | Failed | Closed | Blocked

  /** A connection with what the peer and the network will do to it. */
  class Socket {
    var events: seq<Event>
    ghost var delivered: seq<Byte>

    ghost predicate Valid()
      reads this
    {
      forall k :: 0 <= k < |events| && events[k].Data? ==> events[k].bytes != []
    }

    /** Bytes still to come. */
    ghost function Pending(): nat
      reads this
    {
      PendingIn(events)
    }

    constructor (script: seq<Event>)
      requires forall k :: 0 <= k < |script| && script[k].Data? ==> script[k].bytes != []
      ensures Valid() && events == script && delivered == []
    {
      events := script;
      delivered := [];
    }

    /** recv(2) of at most `n` bytes. Asking for no byte at all returns zero, like a close. */
    method Recv(n: nat) returns (r: Received)
      requires Valid()
      modifies this
      ensures Valid()
      ensures r.Bytes? ==> 0 < |r.bytes| <= n && delivered == old(delivered) + r.bytes && Pending() < old(Pending())
      ensures !r.Bytes? ==> delivered == old(delivered)
      ensures r.Bytes? ==> old(events) != [] && old(events)[0].Data?
      ensures r.Bytes? ==> r.bytes + DataAhead(events) == DataAhead(old(events))
      ensures r.Blocked? ==> n > 0 && events == old(events) == []
      ensures r.Closed? ==> events == old(events) && (n == 0 || (events != [] && events[0].Close?))
      ensures r.Failed? ==> old(events) != [] && old(events)[0].Failure?
    {
      if n == 0 { return Closed; }
      if events == [] { return Blocked; }
      var e := events[0];
      match e
      case Failure =>
        events, r := events[1..], Failed;
      case Close =>
        r := Closed;
      case Data(b) =>
        if |b| <= n {
          r := Bytes(b);
          events := events[1..];
        } else {
          r := Bytes(b[..n]);
          events := [Data(b[n..])] + events[1..];
        }
        delivered := delivered + r.bytes;
    }
  }

  /** What will arrive before the next failure or close. */
  ghost function DataAhead(events: seq<Event>): seq<Byte> {
    if events == [] || !events[0].Data? then [] else events[0].bytes + DataAhead(events[1..])
  }

  ghost function PendingIn(events: seq<Event>): nat {
    if events == [] then 0
    else (if events[0].Data? then |events[0].bytes| else 0) + PendingIn(events[1..])
  }

  // ---------------------------------------------------------------------- the client

  /** swoole_strnpos. */
  method StrnPos(s: array<Byte>, n: nat, eof: seq<Byte>) returns (r: int)
    requires 0 < |eof| <= n <= s.Length
    ensures -1 <= r
    ensures r >= 0 ==> OccursAt(s[..n], eof, r) && NoEofBefore(s[..n], eof, r)
    ensures r < 0 ==> !HasEof(s[..n], eof)
  {
    var i := 0;
    while i < n - |eof| + 1
      invariant 0 <= i <= n - |eof| + 1
      invariant NoEofBefore(s[..n], eof, i)
    {
      assert s[..n][i..i + |eof|] == s[i..i + |eof|];
      if s[i] == eof[0] && s[i..i + |eof|] == eof { return i; }
      assert s[i..i + |eof|] == eof ==> s[i..i + |eof|][0] == eof[0];
      i := i + 1;
    }
    return -1;
  }

  datatype Package =
    | Package(bytes: seq<Byte>)
    | NoEof      // returned false: "no package eof"
    | Error      // returned false: recv failed
    | PeerClosed // returned an empty string
    | Waiting    // still inside recv(2)
    | Overrun    // the residue does not fit the temporary; what follows is not described

  class Client {
    const eof: seq<Byte>
    const maxLength: nat
    var str: array<Byte>
    var length: nat
    ghost var received: seq<Byte>        // since the buffer was last emptied
    ghost var returned: seq<seq<Byte>>   // and what has been returned of it
    ghost var lost: seq<seq<Byte>>       // packages dropped with the residue
    ghost var overrun: bool

    /** Returned packages and residue together are the stream, cut where `Split` cuts it. */
    ghost predicate Valid()
      reads this, str
    {
      && 0 < |eof| <= EOF_MAX <= str.Length && length <= str.Length
      && received == Flatten(returned) + str[..length]
      && Segments(returned, eof)
    }

    ghost function View(): State
      reads this, str
      requires length <= str.Length
    {
      State(str[..length], str.Length, received, returned, lost, overrun)
    }

    /** The buffer never outgrows the maximum and always has room. */
    ghost predicate Sized()
      reads this
    {
      length < str.Length <= maxLength
    }

    constructor (eof: seq<Byte>, maxLength: nat)
      requires 0 < |eof| <= 8
      ensures Valid() && fresh(str) && this.eof == eof && this.maxLength == maxLength && View() == Start()
      ensures str.Length == 65536 && (maxLength >= 65536 ==> Sized())
    {
      this.eof, this.maxLength := eof, maxLength;
      str := new Byte[BUFFER_SIZE](_ => 0);
      length, received, returned, lost, overrun := 0, [], [], [], false;
    }

    /** What `received` cut by the reference starts with. */
    lemma Refines()
      requires Valid()
      ensures returned <= Split(received, eof)
      ensures Split(received, eof) == returned + Split(str[..length], eof)
    {
      SplitStream(returned, str[..length], eof);
    }

    /** The bytes that recv(2) put behind the residue. */
    method Store(b: seq<Byte>)
      requires Valid() && length + |b| <= str.Length
      modifies this`length, this`received, str
      ensures Valid() && length == old(length) + |b|
      ensures str[..length] == old(str[..length]) + b && received == old(received) + b
    {
      forall k | 0 <= k < |b| {
        str[length + k] := b[k];
      }
      length, received := length + |b|, received + b;
      assert str[..length] == old(str[..length]) + b;
    }

    /** Hand out the first `n` bytes and move the rest down, through a temporary it must fit. */
    method Cut(n: nat) returns (p: seq<Byte>)
      requires Valid() && 0 < n <= length && Segment(str[..n], eof) && length - n <= BUFFER_SIZE
      modifies this`length, this`returned, str
      ensures Valid() && p == old(str[..n]) && length == old(length) - n
      ensures returned == old(returned) + [p] && str[..length] == old(str[n..length])
    {
      hide Flatten, Segments, Segment;
      ghost var all := str[..length];
      p := str[..n];
      assert all[..n] == p;
      CutOff(returned, all, n, eof);
      if length > n {
        var rest := length - n;
        var stackBuf := new Byte[BUFFER_SIZE](_ => 0);
        forall k | 0 <= k < rest {
          stackBuf[k] := str[n + k];
        }
        forall k | 0 <= k < rest {
          str[k] := stackBuf[k];
        }
        length := rest;
      } else {
        length := 0;
      }
      returned := returned + [p];
      assert str[..length] == all[n..];
    }

    /** The buffer is full: twice its size, but not more than the maximum. */
    method Grow()
      requires Valid() && str.Length < maxLength
      modifies this`str
      ensures Valid() && fresh(str) && str[..length] == old(str[..length])
      ensures str.Length == if 2 * old(str.Length) > maxLength then maxLength else 2 * old(str.Length)
    {
      var size := 2 * str.Length;
      if size > maxLength { size := maxLength; }
      var bigger := new Byte[size](_ => 0);
      forall k | 0 <= k < length {
        bigger[k] := str[k];
      }
      assert bigger[..length] == str[..length];
      str := bigger;
    }

    /** The data without its first package is too long to be moved. */
    ghost predicate TooLong(s: seq<Byte>) {
      var i := Find(s, eof, 0);
      i.Some? && |s| - (i.value + |eof|) > BUFFER_SIZE
    }

    /** A full buffer's worth of data with no delimiter in it. */
    ghost predicate Endless(s: seq<Byte>) {
      |s| >= maxLength && !HasEof(s[..maxLength], eof)
    }

    method Empty()
      requires Valid()
      modifies this`length, this`received, this`returned
      ensures Valid() && length == 0 && View() == Emptied(old(View()))
    {
      length, received, returned := 0, [], [];
      assert str[..0] == [];
    }

    /** A failure or the end of the connection: the buffer is emptied, whatever it holds. */
    method Drop()
      requires Valid() && !overrun
      modifies this`length, this`received, this`returned, this`lost
      ensures Valid() && length == 0 && View() == Next(old(View()), Drops, eof, maxLength)
      ensures lost == old(lost) + Split(old(str[..length]), eof)
    {
      lost := lost + Split(str[..length], eof);
      Empty();
    }

    /** A delimiter has been found: the package in front is returned, if the rest can be moved. */
    method HandOut(at: nat) returns (r: Package)
      requires Valid() && !overrun && OccursAt(str[..length], eof, at) && NoEofBefore(str[..length], eof, at)
      modifies this`length, this`returned, this`overrun, str
      ensures Valid() && View() == Look(old(View()), eof, maxLength)
      ensures (r.Overrun? <==> overrun) && (overrun <==> TooLong(old(str[..length]))) && (r.Overrun? || r.Package?)
      ensures length <= old(length) && (!overrun ==> length < old(length))
      ensures r.Package? ==> returned == old(returned) + [r.bytes]
    {
      hide Segment, NoEofBefore, Segments, Flatten, Find;
      ghost var data := str[..length];
      FirstIsSegment(data, eof, at);
      FoundFirst(data, eof, at);
      assert data[..at + |eof|] == str[..at + |eof|] && data[at + |eof|..] == str[at + |eof|..length];
      if length - (at + |eof|) > BUFFER_SIZE {
        overrun := true;
        return Overrun;
      }
      var p := Cut(at + |eof|);
      return Package(p);
    }

    /** The look at what is there, after data has been stored. */
    method Examine() returns (r: Option<Package>)
      requires Valid() && !overrun
      modifies this, str
      ensures Valid() && (str == old(str) || fresh(str))
      ensures View() == Look(old(View()), eof, maxLength)
      ensures old(str.Length) <= maxLength ==> str.Length <= maxLength && (!overrun ==> Sized())
      ensures r in {None, Some(NoEof), Some(Overrun)} || r.value.Package?
      ensures r in {None, Some(NoEof)} <==> !HasEof(old(str[..length]), eof)
      ensures r == Some(Overrun) <==> overrun
      ensures r == Some(Overrun) <==> TooLong(old(str[..length]))
      ensures r == None ==>
                received == old(received) && returned == old(returned) && str[..length] == old(str[..length])
      ensures r.Some? && r.value.Package? ==>
                received == old(received) && returned == old(returned) + [r.value.bytes] && old(length) <= str.Length
      ensures r == Some(NoEof) ==> old(length) == maxLength && length == 0 && received == [] && returned == []
    {
      hide Segment, HasEof, NoEofBefore, Segments, Flatten, Find;
      ghost var data := str[..length];
      CutsIffHasEof(data, eof);
      if length < |eof| {
        TooShort(data, eof);
        return None;
      }
      var at := StrnPos(str, length, eof);
      if at >= 0 {
        Occurs(data, eof, at);
        var p := HandOut(at);
        return Some(p);
      }
      if length == maxLength {
        Empty();
        return Some(NoEof);
      } else if length == str.Length && str.Length < maxLength {
        Grow();
      }
      return None;
    }

    /** One round of the loop: one recv(2), and a look at what is there. `None` goes round again. */
    method Round(sock: Socket) returns (r: Option<Package>, ghost b: seq<Byte>)
      requires Valid() && sock.Valid() && !overrun
      modifies this, str, sock
      ensures Valid() && sock.Valid() && (str == old(str) || fresh(str))
      ensures sock.delivered == old(sock.delivered) + b
      ensures old(Sized()) ==> str.Length <= maxLength && (!overrun ==> Sized())
      ensures r == Some(Overrun) <==> overrun
      ensures r in {None, Some(NoEof), Some(Overrun)} || (r.Some? && r.value.Package?) ==>
                && b != [] && b + DataAhead(sock.events) == DataAhead(old(sock.events))
                && View() == Next(old(View()), Arrives(b), eof, maxLength)
      ensures r in {Some(Error), Some(PeerClosed)} ==> View() == Next(old(View()), Drops, eof, maxLength)
      ensures r in {None, Some(NoEof)} ==> !HasEof(old(str[..length]) + b, eof)
      ensures r == None ==>
                && sock.Pending() < old(sock.Pending())
                && received == old(received) + b && returned == old(returned) && str[..length] == old(str[..length]) + b
      ensures r.Some? && r.value.Package? ==>
                && received == old(received) + b && returned == old(returned) + [r.value.bytes]
                && HasEof(old(str[..length]) + b, eof) && |old(str[..length]) + b| <= str.Length
      ensures r == Some(Overrun) ==>
                && TooLong(old(str[..length]) + b) && HasEof(old(str[..length]) + b, eof)
                && |old(str[..length]) + b| <= str.Length
      ensures r.Some? && r.value.Package? ==> !TooLong(old(str[..length]) + b)
      ensures r == Some(NoEof) ==> |old(str[..length]) + b| == maxLength
      ensures r in {Some(Waiting), Some(Error), Some(PeerClosed)} ==> b == []
      ensures r == Some(Waiting) ==> sock.events == old(sock.events) == [] && View() == old(View())
      ensures r == Some(Error) ==> old(sock.events) != [] && old(sock.events)[0].Failure?
      ensures r in {Some(Waiting), Some(Error), Some(PeerClosed)} && old(Sized()) ==> DataAhead(old(sock.events)) == []
      ensures r == Some(PeerClosed) && old(Sized()) ==>
                sock.events == old(sock.events) != [] && sock.events[0].Close?
      ensures r in {Some(NoEof), Some(Error), Some(PeerClosed)} ==> length == 0 && received == [] && returned == []
      ensures r in {Some(Error), Some(PeerClosed)} ==> lost == old(lost) + Split(old(str[..length]), eof)
      ensures r !in {Some(Error), Some(PeerClosed)} ==> lost == old(lost)
      ensures old(Sized()) && old(sock.events) != [] && old(sock.events)[0].Close? ==> r == Some(PeerClosed)
    {
      hide Segment, HasEof, NoEofBefore, Segments, Flatten, Find, Split, TooLong;
      b := [];
      var n := str.Length - length;
      if n > BUFFER_SIZE { n := BUFFER_SIZE; }
      var ret := sock.Recv(n);
      if ret.Blocked? {
        return Some(Waiting), b;
      } else if ret.Failed? {
        Drop();
        return Some(Error), b;
      } else if ret.Closed? {
        Drop();
        return Some(PeerClosed), b;
      }
      b := ret.bytes;
      Store(ret.bytes);
      r := Examine();
    }

    /** One call of recv() in delimiter mode; `got` is what arrived during the call. Data without
        a delimiter in its first `maxLength` bytes always ends in the "no package eof" branch. A
        close always ends the call. A close or a failure drops the packages that were buffered, and
        there were some exactly if the buffer held a delimiter before the call. */
    method Receive(sock: Socket) returns (r: Package, ghost got: seq<Byte>)
      requires Valid() && sock.Valid() && !overrun
      modifies this, str, sock
      ensures Valid() && sock.Valid() && sock.delivered == old(sock.delivered) + got
      ensures old(Sized()) && !overrun ==> Sized()
      ensures r.Package? ==>
                && got != [] && received == old(received) + got && returned == old(returned) + [r.bytes]
      ensures r.Waiting? ==>
                && sock.events == [] && received == old(received) + got && returned == old(returned)
                && (got != [] ==> !HasEof(str[..length], eof))
      ensures r.NoEof? ==>
                && |old(str[..length]) + got| == maxLength && !HasEof(old(str[..length]) + got, eof)
      ensures r in {NoEof, Error, PeerClosed} ==> length == 0 && received == [] && returned == []
      ensures r in {Error, PeerClosed} ==>
                && lost == old(lost) + Split(old(str[..length]) + got, eof)
                && (lost == old(lost) <==> !HasEof(old(str[..length]), eof))
      ensures r !in {Error, PeerClosed} ==> lost == old(lost)
      ensures r.Overrun? <==> overrun
      ensures r.Overrun? ==> TooLong(old(str[..length]) + got)
      ensures r.Package? ==> !TooLong(old(str[..length]) + got)
      ensures old(Sized()) && maxLength <= 65536 + |eof| ==> !r.Overrun?
      ensures old(Sized()) && r.PeerClosed? ==> sock.events != [] && sock.events[0].Close?
      ensures old(Sized()) && Endless(old(str[..length]) + DataAhead(old(sock.events))) ==> r.NoEof?
      ensures old(Sized()) && old(sock.events) != [] && old(sock.events)[0].Close? ==> r.PeerClosed?
    {
      hide HasEof, Segments, Flatten, DataAhead, Endless, CallSoFar, Look, Split, Find, TooLong;
      got := [];
      ghost var residue, events0, received0 := str[..length], sock.events, received;
      CallStarts(residue, events0, received0, eof);
      while true
        invariant Valid() && sock.Valid() && (str == old(str) || fresh(str)) && !overrun && lost == old(lost)
        invariant sock.delivered == old(sock.delivered) + got && returned == old(returned)
        invariant CallSoFar(residue, got, str[..length], events0, sock.events, received0, received, eof)
        invariant old(Sized()) ==> Sized()
        decreases sock.Pending()
      {
        ghost var now, events, was := str[..length], sock.events, received;
        var out, b := Round(sock);
        Assoc(old(sock.delivered), got, b);
        if out == None {
          CallGoesOn(residue, got, b, now, str[..length], events0, events, sock.events, received0, was, received, eof);
          got := got + b;
        } else {
          CallEnds(residue, got, b, now, events0, events, sock.events, received0, was, eof);
          CallLoses(old(lost), residue, got + b, eof);
          if old(Sized()) {
            EndlessOrNot(residue, got, b, now, events0, events, sock.events, received0, was, out.value);
            if maxLength <= BUFFER_SIZE + |eof| { NotTooLong(now + b); }
          }
          return out.value, got + b;
        }
      }
    }

    lemma NotTooLong(s: seq<Byte>)
      requires |s| <= maxLength <= BUFFER_SIZE + |eof|
      ensures !TooLong(s)
    {
    }

    /** Under `Sized`, a call that ends otherwise than with `NoEof` did not see endless data. */
    lemma EndlessOrNot(residue: seq<Byte>, got: seq<Byte>, b: seq<Byte>, now: seq<Byte>,
                       events0: seq<Event>, events: seq<Event>, events': seq<Event>,
                       received0: seq<Byte>, was: seq<Byte>, r: Package)
      requires CallSoFar(residue, got, now, events0, events, received0, was, eof)
      requires r.Package? || r.Overrun? ==>
                 b + DataAhead(events') == DataAhead(events) && HasEof(now + b, eof) && |now + b| <= maxLength
      requires r in {Waiting, Error, PeerClosed} ==> DataAhead(events) == [] && |now| < maxLength
      ensures Endless(residue + DataAhead(events0)) ==> r.NoEof?
    {
      hide HasEof, DataAhead;
      var all := residue + DataAhead(events0);
      Assoc(residue, got, DataAhead(events));
      assert all == now + DataAhead(events);
      if r.Package? || r.Overrun? {
        Assoc(now, b, DataAhead(events'));
        HasEofLonger(now + b, all, eof, maxLength);
      }
    }
  }

  /** Returning the front of the data keeps the stream. */
  lemma CutOff(returned: seq<seq<Byte>>, all: seq<Byte>, n: nat, eof: seq<Byte>)
    requires n <= |all| && Segments(returned, eof) && Segment(all[..n], eof)
    ensures Flatten(returned) + all == Flatten(returned + [all[..n]]) + all[n..]
    ensures Segments(returned + [all[..n]], eof)
  {
    hide Flatten, Segment;
    FlattenSnoc(returned, all[..n]);
    Assoc(Flatten(returned), all[..n], all[n..]);
    assert all[..n] + all[n..] == all;
  }

  lemma FoundFirst(s: seq<Byte>, eof: seq<Byte>, i: nat)
    requires OccursAt(s, eof, i) && NoEofBefore(s, eof, i)
    ensures Find(s, eof, 0) == Some(i)
  {
    FindIs(s, eof, 0, i);
  }

  lemma TooShort(s: seq<Byte>, eof: seq<Byte>)
    requires |s| < |eof|
    ensures !HasEof(s, eof)
  {
  }

  lemma HasEofLonger(s: seq<Byte>, t: seq<Byte>, eof: seq<Byte>, n: nat)
    requires s <= t && |s| <= n && HasEof(s, eof)
    ensures |t| >= n ==> HasEof(t[..n], eof)
  {
    if |t| >= n {
      var i: nat :| OccursAt(s, eof, i);
      var b := t[..n][|s|..];
      assert t[..n] == s + b;
      OccursInPrefix(s, b, eof, i);
      assert OccursAt(t[..n], eof, i);
    }
  }

  lemma Occurs(s: seq<Byte>, eof: seq<Byte>, i: nat)
    requires OccursAt(s, eof, i)
    ensures HasEof(s, eof)
  {
  }

  lemma FirstIsSegment(s: seq<Byte>, eof: seq<Byte>, i: nat)
    requires OccursAt(s, eof, i) && NoEofBefore(s, eof, i)
    ensures Segment(s[..i + |eof|], eof)
  {
    var p := s[..i + |eof|];
    assert s == p + s[i + |eof|..];
    OccursInPrefix(p, s[i + |eof|..], eof, i);
    forall k: nat | k < i ensures !OccursAt(p, eof, k) {
      OccursInPrefix(p, s[i + |eof|..], eof, k);
    }
  }

  /** In the middle of a call: `got` has arrived, `now` is in the buffer, and no delimiter was seen. */
  ghost predicate CallSoFar(residue: seq<Byte>, got: seq<Byte>, now: seq<Byte>,
                            events0: seq<Event>, events: seq<Event>,
                            received0: seq<Byte>, received: seq<Byte>, eof: seq<Byte>)
  {
    && now == residue + got && received == received0 + got
    && got + DataAhead(events) == DataAhead(events0)
    && (if got == [] then events == events0 else !HasEof(now, eof))
  }

  lemma CallStarts(residue: seq<Byte>, events: seq<Event>, received: seq<Byte>, eof: seq<Byte>)
    ensures CallSoFar(residue, [], residue, events, events, received, received, eof)
  {
    assert residue + [] == residue && received + [] == received;
    assert [] + DataAhead(events) == DataAhead(events);
  }

  lemma CallGoesOn(residue: seq<Byte>, got: seq<Byte>, b: seq<Byte>, now: seq<Byte>, now': seq<Byte>,
                   events0: seq<Event>, events: seq<Event>, events': seq<Event>,
                   received0: seq<Byte>, received: seq<Byte>, received': seq<Byte>, eof: seq<Byte>)
    requires CallSoFar(residue, got, now, events0, events, received0, received, eof)
    requires b != [] && b + DataAhead(events') == DataAhead(events)
    requires now' == now + b && received' == received + b && !HasEof(now', eof)
    ensures CallSoFar(residue, got + b, now', events0, events', received0, received', eof)
  {
    hide HasEof;
    Assoc(residue, got, b);
    Assoc(received0, got, b);
    assert (got + b) + DataAhead(events') == got + (b + DataAhead(events'));
  }

  lemma CallEnds(residue: seq<Byte>, got: seq<Byte>, b: seq<Byte>, now: seq<Byte>,
                 events0: seq<Event>, events: seq<Event>, events': seq<Event>,
                 received0: seq<Byte>, received: seq<Byte>, eof: seq<Byte>)
    requires CallSoFar(residue, got, now, events0, events, received0, received, eof)
    ensures residue + (got + b) == now + b && received0 + (got + b) == received + b
    ensures got == [] ==> events == events0
    ensures b == [] && got + b != [] ==> !HasEof(now, eof)
    ensures events0 != [] && events0[0].Close? ==> got == []
    ensures b == [] ==> now + b == now && received + b == received
  {
  }

  /** What a call that ends in a drop loses: nothing exactly if no package was buffered before. */
  lemma CallLoses(lost: seq<seq<Byte>>, residue: seq<Byte>, got: seq<Byte>, eof: seq<Byte>)
    requires eof != []
    ensures got == [] || !HasEof(residue + got, eof) ==>
              (lost + Split(residue + got, eof) == lost <==> !HasEof(residue, eof))
  {
    hide Find;
    CutsIffHasEof(residue + got, eof);
    if got == [] { assert residue + got == residue; }
    if HasEof(residue, eof) {
      HasEofLonger(residue, residue + got, eof, |residue + got|);
      assert (residue + got)[..|residue + got|] == residue + got;
    }
    if Split(residue + got, eof) != [] { assert |lost + Split(residue + got, eof)| > |lost|; }
  }
}
