/**
  * Asynchronous file reads and writes: the table of open files with their append positions,
  * the table of requests under the ids of the I/O jobs, and what completions do.
  */
module AsyncFiles {
  import opened Options
  import opened Bytes

  // ------------------------------------------------------------------------- state

  /** A file_request. `uid` stands for its address. For reads, `file` is what the file holds,
      `start` where reading began and `got` what the callbacks have been given. */
  datatype Request = Request(
    uid: nat, read: bool, name: string, offset: nat, length: nat,
    file: seq<Byte>, start: nat, got: seq<Byte>, eof: bool)

  /** A file_handle: the position where appending goes on. Its address is given as the number of
      openings before it. */
  datatype Handle = Handle(pos: nat, opening: nat)

  /** A write handed to the I/O threads, on the handle of that opening. */
  datatype Issued = Issued(opening: nat, offset: nat, length: nat, append: bool)

  datatype State = State(
    openFiles: map<string, Handle>,  // by file name
    requests: map<int, Request>,     // by id of the I/O job
    openings: nat, next: nat, freed: seq<Request>, leaked: seq<nat>, issued: seq<Issued>)

  function Initial(): State {
    State(map[], map[], 0, 0, [], [], [])
  }

  // ------------------------------------------------------------------------ writing

  /** Where swoole_async_write writes, and the append position it leaves behind. The first write
      opens the file; given an explicit offset, it leaves position zero. */
  function Place(pos: Option<nat>, offset: int, length: nat, size: nat): (nat, nat) {
    match pos
    case None => if offset < 0 then (size, size + length) else (offset, 0)
    case Some(p) => if offset < 0 then (p, p + length) else (offset, p)
  }

  function PositionOf(s: State, name: string): Option<nat> {
    if name in s.openFiles then Some(s.openFiles[name].pos) else None
  }

  function OpeningOf(s: State, name: string): nat {
    if name in s.openFiles then s.openFiles[name].opening else s.openings
  }

  /** swoole_async_write on a file of `size` bytes; `id` is the id of the I/O job, None when the threads
      do not take the job. */
  function Write(s: State, name: string, length: nat, offset: int, size: nat, id: Option<int>): State {
    var (at, pos) := Place(PositionOf(s, name), offset, length, size);
    var opening := OpeningOf(s, name);
    var t := s.(openFiles := s.openFiles[name := Handle(pos, opening)], next := s.next + 1,
                openings := if name in s.openFiles then s.openings else s.openings + 1);
    match id
    case None => t.(leaked := s.leaked + [s.next])
    case Some(i) =>
      t.(requests := s.requests[i := Request(s.next, false, name, at, length, [], 0, [], false)],
         issued := s.issued + [Issued(opening, at, length, offset < 0)])
  }

  // ------------------------------------------------------------------------ reading

  /** swoole_async_read: refused unless the offset lies inside the file. */
  function Read(s: State, name: string, length: nat, offset: int, file: seq<Byte>, id: Option<int>): State {
    if offset < 0 || offset >= |file| then s
    else
      match id
      case None => s.(next := s.next + 1, leaked := s.leaked + [s.next])
      case Some(i) =>
        s.(next := s.next + 1,
           requests := s.requests[i := Request(s.next, true, name, offset, length, file, offset, [], false)])
  }

  // ---------------------------------------------------------------------- completion

  function Free(s: State, id: int): State
    requires id in s.requests
  {
    s.(requests := s.requests - {id}, freed := s.freed + [s.requests[id]])
  }

  /** The request after the callback has seen `ret` bytes. */
  function Advanced(q: Request, ret: int): Request {
    if ret == 0 then q.(eof := true)
    else if ret < 0 || !q.read || q.offset + ret > |q.file| then q
    else q.(offset := q.offset + ret, got := q.got + q.file[q.offset..q.offset + ret])
  }

  /** php_swoole_aio_onComplete: `keep` is false when the callback returned false; `id'` is the job id
      of the next read, None when it is not taken. */
  function Complete(s: State, id: int, ret: int, keep: bool, id': Option<int>): State {
    if id !in s.requests then s
    else
      var q := Advanced(s.requests[id], ret);
      var t := s.(requests := s.requests[id := q]);
      if !q.read then
        var u := if keep then t else t.(openFiles := t.openFiles - {q.name});
        Free(u, id)
      else if !keep || q.eof || id'.None? then Free(t, id)
      else t.(requests := (t.requests - {id})[id'.value := q])
  }

  // ------------------------------------------------------------------- environment

  /** New job ids are not in use, and a read returns what the file holds: something before its end,
      nothing at its end. */
  ghost predicate GoodId(s: State, id: Option<int>) {
    id.Some? ==> id.value !in s.requests
  }

  ghost predicate GoodReturn(q: Request, ret: int) {
    q.read ==> ret <= q.length && (ret == 0 ==> q.offset >= |q.file|) && (ret > 0 ==> q.offset + ret <= |q.file|)
  }

  datatype Event =
    | WriteEvent(name: string, length: nat, offset: int, size: nat, id: Option<int>)
    | ReadEvent(name: string, length: nat, offset: int, file: seq<Byte>, id: Option<int>)
    | DoneEvent(task: int, ret: int, keep: bool, next: Option<int>)

  function Next(s: State, e: Event): State {
    match e
    case WriteEvent(name, length, offset, size, id) => Write(s, name, length, offset, size, id)
    case ReadEvent(name, length, offset, file, id) => Read(s, name, length, offset, file, id)
    case DoneEvent(id, ret, keep, next) => Complete(s, id, ret, keep, next)
  }

  ghost predicate Possible(s: State, e: Event) {
    match e
    case WriteEvent(_, _, _, _, id) => GoodId(s, id)
    case ReadEvent(_, _, _, _, id) => GoodId(s, id)
    case DoneEvent(id, ret, _, next) =>
      id in s.requests ==> GoodReturn(s.requests[id], ret) && (next.Some? ==> next.value == id || GoodId(s, next))
  }

  function Run(s: State, es: seq<Event>): State
    decreases |es|
  {
    if es == [] then s else Run(Next(s, es[0]), es[1..])
  }

  ghost predicate Behaviour(s: State, es: seq<Event>)
    decreases |es|
  {
    es != [] ==> Possible(s, es[0]) && Behaviour(Next(s, es[0]), es[1..])
  }

  // -------------------------------------------------------- the request table is sound

  /** Every request is in the table under one job id, or was freed, or was never taken; once each. */
  ghost predicate Accounted(s: State) {
    && (forall i, j :: i in s.requests && j in s.requests && i != j ==> s.requests[i].uid != s.requests[j].uid)
    && (forall a, b :: 0 <= a < b < |s.freed| ==> s.freed[a].uid != s.freed[b].uid)
    && (forall i, a :: i in s.requests && 0 <= a < |s.freed| ==> s.requests[i].uid != s.freed[a].uid)
    && (forall i :: i in s.requests ==> s.requests[i].uid < s.next)
    && (forall a :: 0 <= a < |s.freed| ==> s.freed[a].uid < s.next)
    && s.next == |s.requests| + |s.freed| + |s.leaked|
  }

  /** What a read has handed over is the file from its start to where it stands; all of it at the end. */
  ghost predicate Faithful(q: Request) {
    q.read ==>
      && q.start <= q.offset <= |q.file| && q.got == q.file[q.start..q.offset]
      && (q.eof ==> q.got == q.file[q.start..])
  }

  ghost predicate AllFaithful(s: State) {
    && (forall i :: i in s.requests ==> Faithful(s.requests[i]))
    && (forall a :: 0 <= a < |s.freed| ==> Faithful(s.freed[a]))
  }

  ghost predicate Sound(s: State) {
    Accounted(s) && AllFaithful(s)
  }

  /** Open files have different handles, and writes were issued on handles that were opened. */
  ghost predicate Opened(s: State) {
    && (forall n :: n in s.openFiles ==> s.openFiles[n].opening < s.openings)
    && (forall m, n :: m in s.openFiles && n in s.openFiles && m != n ==>
          s.openFiles[m].opening != s.openFiles[n].opening)
    && (forall k :: 0 <= k < |s.issued| ==> s.issued[k].opening < s.openings)
  }

  ghost predicate Inv(s: State) {
    Sound(s) && Opened(s)
  }

  lemma AdvancedFaithful(q: Request, ret: int)
    requires Faithful(q) && GoodReturn(q, ret)
    ensures Faithful(Advanced(q, ret)) && Advanced(q, ret).uid == q.uid
  {
    if q.read && ret > 0 {
      assert q.file[q.start..q.offset] + q.file[q.offset..q.offset + ret] == q.file[q.start..q.offset + ret];
    } else if q.read && ret == 0 {
      assert q.file[q.start..q.offset] == q.file[q.start..];
    }
  }

  lemma SubmitKeeps(s: State, q: Request, id: int, files: map<string, Handle>, openings: nat, issued: seq<Issued>)
    requires Sound(s) && q.uid == s.next && id !in s.requests && Faithful(q)
    ensures Sound(s.(openFiles := files, openings := openings, issued := issued, next := s.next + 1,
                     requests := s.requests[id := q]))
  {
    assert |s.requests[id := q]| == |s.requests| + 1;
  }

  lemma LeakKeeps(s: State, files: map<string, Handle>, openings: nat)
    requires Sound(s)
    ensures Sound(s.(openFiles := files, openings := openings, next := s.next + 1, leaked := s.leaked + [s.next]))
  {
  }

  lemma FreeKeeps(s: State, id: int)
    requires Sound(s) && id in s.requests
    ensures Sound(Free(s, id))
  {
    var t := Free(s, id);
    assert t.requests.Keys == s.requests.Keys - {id};
    assert |t.requests| == |t.requests.Keys| && |s.requests| == |s.requests.Keys|;
    assert AllFaithful(t) by { hide Accounted; }
    assert Accounted(t) by { hide AllFaithful; }
  }

  lemma ReplaceKeeps(s: State, id: int, q: Request)
    requires Sound(s) && id in s.requests && q.uid == s.requests[id].uid && Faithful(q)
    ensures Sound(s.(requests := s.requests[id := q]))
  {
    assert s.requests[id := q].Keys == s.requests.Keys;
    assert |s.requests[id := q]| == |s.requests[id := q].Keys| == |s.requests.Keys| == |s.requests|;
  }

  lemma MoveKeeps(s: State, id: int, id': int)
    requires Sound(s) && id in s.requests && (id' == id || id' !in s.requests)
    ensures Sound(s.(requests := (s.requests - {id})[id' := s.requests[id]]))
  {
    var m := (s.requests - {id})[id' := s.requests[id]];
    SameSize(s.requests, id, id', s.requests[id]);
    assert Accounted(s.(requests := m)) by { hide AllFaithful, Faithful; }
    assert AllFaithful(s.(requests := m)) by { hide Accounted, Faithful; }
  }

  lemma SameSize(m: map<int, Request>, id: int, id': int, q: Request)
    requires id in m && (id' == id || id' !in m)
    ensures |(m - {id})[id' := q]| == |m|
  {
    var n := (m - {id})[id' := q];
    assert n.Keys == m.Keys - {id} + {id'};
    assert |n| == |n.Keys| && |m| == |m.Keys|;
  }

  lemma FilesDoNotMatter(s: State, files: map<string, Handle>)
    requires Sound(s)
    ensures Sound(s.(openFiles := files))
  {
  }

  lemma NextSound(s: State, e: Event)
    requires Sound(s) && Possible(s, e)
    ensures Sound(Next(s, e))
  {
    hide Sound;
    match e
    case WriteEvent(name, length, offset, size, id) =>
      var t := Write(s, name, length, offset, size, id);
      var (at, pos) := Place(PositionOf(s, name), offset, length, size);
      if id.None? {
        LeakKeeps(s, t.openFiles, t.openings);
      } else {
        var q := Request(s.next, false, name, at, length, [], 0, [], false);
        SubmitKeeps(s, q, id.value, t.openFiles, t.openings, t.issued);
      }
    case ReadEvent(name, length, offset, file, id) =>
      if 0 <= offset < |file| {
        if id.None? {
          LeakKeeps(s, s.openFiles, s.openings);
        } else {
          var q := Request(s.next, true, name, offset, length, file, offset, [], false);
          assert file[offset..offset] == [];
          SubmitKeeps(s, q, id.value, s.openFiles, s.openings, s.issued);
        }
      }
    case DoneEvent(id, ret, keep, next) =>
      if id in s.requests { CompleteKeeps(s, id, ret, keep, next); }
  }

  lemma WriteOpened(s: State, name: string, length: nat, offset: int, size: nat, id: Option<int>)
    requires Opened(s)
    ensures Opened(Write(s, name, length, offset, size, id))
  {
    hide Place;
  }

  /** Reads and completions open nothing and issue no write. */
  lemma OthersOpen(s: State, e: Event)
    requires !e.WriteEvent?
    ensures var t := Next(s, e);
            && t.issued == s.issued && t.openings == s.openings
            && forall n :: n in t.openFiles ==> n in s.openFiles && t.openFiles[n] == s.openFiles[n]
  {
    hide Advanced;
  }

  lemma NextOpened(s: State, e: Event)
    requires Opened(s)
    ensures Opened(Next(s, e))
  {
    hide Write, Read, Complete;
    if e.WriteEvent? {
      WriteOpened(s, e.name, e.length, e.offset, e.size, e.id);
    } else {
      OthersOpen(s, e);
    }
  }

  lemma NextKeeps(s: State, e: Event)
    requires Inv(s) && Possible(s, e)
    ensures Inv(Next(s, e))
  {
    hide Sound, Opened, Next;
    NextSound(s, e);
    NextOpened(s, e);
  }

  lemma CompleteKeeps(s: State, id: int, ret: int, keep: bool, id': Option<int>)
    requires Sound(s) && id in s.requests && GoodReturn(s.requests[id], ret)
    requires id'.Some? ==> id'.value == id || GoodId(s, id')
    ensures Sound(Complete(s, id, ret, keep, id'))
  {
    hide Accounted, Advanced, Faithful;
    var q := Advanced(s.requests[id], ret);
    AdvancedFaithful(s.requests[id], ret);
    ReplaceKeeps(s, id, q);
    var t := s.(requests := s.requests[id := q]);
    if !q.read {
      FilesDoNotMatter(t, t.openFiles - {q.name});
      FreeKeeps(if keep then t else t.(openFiles := t.openFiles - {q.name}), id);
    } else if !keep || q.eof || id'.None? {
      FreeKeeps(t, id);
    } else {
      MoveKeeps(t, id, id'.value);
    }
  }

  /** In every run: one request, one job id, freed at most once; and every read hands over its file. */
  lemma {:induction false} RunKeeps(s: State, es: seq<Event>)
    requires Inv(s) && Behaviour(s, es)
    ensures Inv(Run(s, es))
    decreases |es|
  {
    hide Inv, Next, Possible;
    if es != [] {
      NextKeeps(s, es[0]);
      RunKeeps(Next(s, es[0]), es[1..]);
    }
  }

  // ------------------------------------------------------------------- appends tile

  /** The appends issued on the handle of one opening. */
  function AppendsOf(issued: seq<Issued>, opening: nat): seq<Issued> {
    if issued == [] then []
    else
      var last, init := issued[|issued| - 1], issued[..|issued| - 1];
      if last.opening == opening && last.append then AppendsOf(init, opening) + [last] else AppendsOf(init, opening)
  }

  function Total(ws: seq<Issued>): nat {
    if ws == [] then 0 else Total(ws[..|ws| - 1]) + ws[|ws| - 1].length
  }

  /** The writes lie one behind the other from `base` on, without gap or overlap. */
  ghost predicate Tile(ws: seq<Issued>, base: nat) {
    forall k :: 0 <= k < |ws| ==> ws[k].offset == base + Total(ws[..k])
  }

  /** The appends to `name` since it was opened tile the file from `base`, and the next one goes on
      behind them. */
  ghost predicate Tiled(s: State, name: string, base: nat) {
    && name in s.openFiles
    && var ws := AppendsOf(s.issued, s.openFiles[name].opening);
       Tile(ws, base) && s.openFiles[name].pos == base + Total(ws)
  }

  /** The event neither loses an append to `name` nor closes its handle. */
  ghost predicate Leaves(s: State, e: Event, name: string) {
    match e
    case WriteEvent(n, length, offset, _, id) => n == name && offset < 0 && length > 0 ==> id.Some?
    case ReadEvent(_, _, _, _, _) => true
    case DoneEvent(id, _, keep, _) => id in s.requests && s.requests[id].name == name && !s.requests[id].read ==> keep
  }

  lemma AppendsSnoc(issued: seq<Issued>, w: Issued, opening: nat)
    ensures AppendsOf(issued + [w], opening) ==
            if w.opening == opening && w.append then AppendsOf(issued, opening) + [w] else AppendsOf(issued, opening)
  {
    assert (issued + [w])[..|issued|] == issued;
  }

  /** A handle that has not been opened yet has no appends. */
  lemma {:induction false} NewHandleHasNone(issued: seq<Issued>, opening: nat)
    requires forall k :: 0 <= k < |issued| ==> issued[k].opening < opening
    ensures AppendsOf(issued, opening) == []
  {
    if issued != [] { NewHandleHasNone(issued[..|issued| - 1], opening); }
  }

  lemma TileSnoc(ws: seq<Issued>, w: Issued, base: nat)
    requires Tile(ws, base) && w.offset == base + Total(ws)
    ensures Tile(ws + [w], base) && Total(ws + [w]) == Total(ws) + w.length
  {
    var all := ws + [w];
    assert all[..|ws|] == ws;
    forall k | 0 <= k < |all| ensures all[k].offset == base + Total(all[..k]) {
      if k < |ws| { assert all[..k] == ws[..k]; }
    }
  }

  lemma TiledWrite(s: State, name: string, base: nat, n: string, length: nat, offset: int, size: nat, id: Option<int>)
    requires Opened(s) && Tiled(s, name, base)
    ensures Tiled(Write(s, n, length, offset, size, id), name, base) <==>
            (n == name && offset < 0 && length > 0 ==> id.Some?)
  {
    hide AppendsOf, Total, Tile;
    var (at, pos) := Place(PositionOf(s, n), offset, length, size);
    var opening := s.openFiles[name].opening;
    assert Write(s, n, length, offset, size, id).openFiles[name].opening == opening;
    if id.Some? {
      var w := Issued(OpeningOf(s, n), at, length, offset < 0);
      AppendsSnoc(s.issued, w, opening);
      if n == name && offset < 0 { TileSnoc(AppendsOf(s.issued, opening), w, base); }
    }
  }

  lemma TiledNext(s: State, e: Event, name: string, base: nat)
    requires Opened(s) && Tiled(s, name, base) && Leaves(s, e, name)
    ensures Tiled(Next(s, e), name, base)
  {
    hide AppendsOf, Total, Tile, Write, Opened;
    match e
    case WriteEvent(n, length, offset, size, id) => TiledWrite(s, name, base, n, length, offset, size, id);
    case _ =>
  }

  ghost predicate Undisturbed(s: State, es: seq<Event>, name: string)
    decreases |es|
  {
    es != [] ==> Leaves(s, es[0], name) && Undisturbed(Next(s, es[0]), es[1..], name)
  }

  /** However appends to a file mix with other reads, writes and completions, they tile it. */
  lemma {:induction false} AppendsTile(s: State, es: seq<Event>, name: string, base: nat)
    requires Opened(s) && Tiled(s, name, base) && Undisturbed(s, es, name)
    ensures Tiled(Run(s, es), name, base)
    decreases |es|
  {
    hide Tiled, Next, Leaves, Opened;
    if es != [] {
      TiledNext(s, es[0], name, base);
      NextOpened(s, es[0]);
      AppendsTile(Next(s, es[0]), es[1..], name, base);
    }
  }

  /** The write that opens the file decides where appends begin: at its old end if it is an append
      itself, and at zero otherwise. */
  lemma FirstWriteSetsBase(s: State, name: string, length: nat, offset: int, size: nat, id: int)
    requires Opened(s) && name !in s.openFiles
    ensures var t := Write(s, name, length, offset, size, Some(id));
            && Tiled(t, name, if offset < 0 then size else 0)
            && (Tiled(t, name, size) <==> offset < 0 || size == 0)
  {
    hide AppendsOf, Write, Opened, Tile, Total;
    FirstWriteIs(s, name, length, offset, size, id);
    TileOne(Issued(s.openings, size, length, true));
  }

  lemma FirstWriteIs(s: State, name: string, length: nat, offset: int, size: nat, id: int)
    requires Opened(s) && name !in s.openFiles
    ensures var t := Write(s, name, length, offset, size, Some(id));
            && name in t.openFiles && t.openFiles[name] == Handle(if offset < 0 then size + length else 0, s.openings)
            && AppendsOf(t.issued, s.openings) == if offset < 0 then [Issued(s.openings, size, length, true)] else []
  {
    var w := Issued(s.openings, if offset < 0 then size else offset, length, offset < 0);
    NewHandleHasNone(s.issued, s.openings);
    hide AppendsOf, Opened;
    OnlyAppend(s.issued, w);
    assert Write(s, name, length, offset, size, Some(id)).issued == s.issued + [w];
  }

  lemma OnlyAppend(issued: seq<Issued>, w: Issued)
    requires AppendsOf(issued, w.opening) == []
    ensures AppendsOf(issued + [w], w.opening) == if w.append then [w] else []
  {
    AppendsSnoc(issued, w, w.opening);
    hide AppendsOf;
    assert [] + [w] == [w];
  }

  lemma TileOne(w: Issued)
    ensures Tile([w], w.offset) && Total([w]) == w.length
    ensures forall base: nat :: Tile([], base) && Total([]) == 0
  {
    assert [w][..0] == [];
  }

  // -------------------------------------------------------------------- the two tables

  /** Where a write goes: to its offset, behind the appends so far, or to the end of a file that is
      opened for it. */
  function Target(openFiles: map<string, Handle>, name: string, offset: int, size: nat): nat {
    if offset >= 0 then offset else if name in openFiles then openFiles[name].pos else size
  }

  /** Where a write goes and what it leaves as it was. */
  ghost predicate Stored(s: State, t: State, name: string, length: nat, offset: int, size: nat, id: Option<int>) {
    && (id.None? ==> t.requests == s.requests)
    && (id.Some? ==>
          && id.value in t.requests && t.requests[id.value].offset == Target(s.openFiles, name, offset, size)
          && t.requests[id.value].name == name && t.requests[id.value].length == length && !t.requests[id.value].read)
    && (id.Some? ==> t.requests - {id.value} == s.requests)
    && t.openFiles - {name} == s.openFiles - {name}
  }

  lemma WriteStores(s: State, name: string, length: nat, offset: int, size: nat, id: Option<int>)
    requires GoodId(s, id)
    ensures Stored(s, Write(s, name, length, offset, size, id), name, length, offset, size, id)
  {
    var t := Write(s, name, length, offset, size, id);
    if id.Some? { assert t.requests - {id.value} == s.requests; }
    assert t.openFiles - {name} == s.openFiles - {name};
  }

  /** What a write has done: a taken one is under its id and goes where it should, and no other
      request or handle has changed; appends stay without gap and overlap, unless one is not taken;
      the write that opens a file sets where its appends begin. */
  ghost predicate Written(s: State, t: State, name: string, length: nat, offset: int, size: nat, id: Option<int>) {
    && Stored(s, t, name, length, offset, size, id)
    && (forall n, base: nat :: Tiled(s, n, base) ==>
          (Tiled(t, n, base) <==> (n == name && offset < 0 && length > 0 ==> id.Some?)))
    && (name !in s.openFiles && id.Some? ==> Tiled(t, name, if offset < 0 then size else 0))
  }

  lemma WriteKeeps(s: State, name: string, length: nat, offset: int, size: nat, id: Option<int>)
    requires Inv(s) && GoodId(s, id)
    ensures var t := Write(s, name, length, offset, size, id); Inv(t) && Written(s, t, name, length, offset, size, id)
  {
    hide Tiled, Write, Sound, Opened, Stored;
    NextKeeps(s, WriteEvent(name, length, offset, size, id));
    WriteStores(s, name, length, offset, size, id);
    var t := Write(s, name, length, offset, size, id);
    forall n, base: nat | Tiled(s, n, base)
      ensures Tiled(t, n, base) <==> (n == name && offset < 0 && length > 0 ==> id.Some?)
    {
      TiledWrite(s, n, base, name, length, offset, size, id);
    }
    if name !in s.openFiles && id.Some? { FirstWriteSetsBase(s, name, length, offset, size, id.value); }
  }

  /** What a read has not handed over yet. */
  function Remaining(q: Request): seq<Byte> {
    if q.offset <= |q.file| then q.file[q.offset..] else []
  }

  /** What the beginning of a read has done: it is refused outside the file; a taken one is under its
      id, has all of the file from its offset to read, and no other request has changed. */
  ghost predicate Begun(
    s: State, t: State, name: string, length: nat, offset: int, file: seq<Byte>, id: Option<int>)
  {
    if 0 <= offset < |file| && id.Some? then
      && id.value in t.requests && t.requests - {id.value} == s.requests
      && t.requests[id.value].got == [] && Remaining(t.requests[id.value]) == file[offset..]
      && t.requests[id.value].name == name && t.requests[id.value].length == length && t.requests[id.value].read
    else t.requests == s.requests
  }

  lemma ReadKeeps(s: State, name: string, length: nat, offset: int, file: seq<Byte>, id: Option<int>)
    requires Inv(s) && GoodId(s, id)
    ensures var t := Read(s, name, length, offset, file, id); Inv(t) && Begun(s, t, name, length, offset, file, id)
  {
    NextKeeps(s, ReadEvent(name, length, offset, file, id));
    hide Inv;
    var t := Read(s, name, length, offset, file, id);
    if 0 <= offset < |file| && id.Some? { assert t.requests - {id.value} == s.requests; }
  }

  /** `r` is the request `q` after a callback: for a read, what has been handed over and what remains
      are together what was asked for, before and after. */
  ghost predicate HandsOver(q: Request, r: Request) {
    && r.uid == q.uid && r.name == q.name && r.read == q.read
    && (q.read ==>
          && q.start <= |q.file| && q.got <= r.got && q.got + Remaining(q) == q.file[q.start..]
          && r.got + Remaining(r) == q.file[q.start..])
  }

  /** A read goes on unless its callback or the end of the file stops it. */
  predicate GoesOn(q: Request, ret: int, keep: bool, id': Option<int>) {
    q.read && keep && !q.eof && ret != 0 && id'.Some?
  }

  /** What a completion has done: only the request of that id changes; it goes on under the id of the
      next read, or is freed, with nothing remaining at the end of the file; and the handle goes if
      the callback of a write says so. */
  ghost predicate Completed(s: State, t: State, id: int, ret: int, keep: bool, id': Option<int>) {
    if id !in s.requests then t == s
    else
      var q := s.requests[id];
      && t.openFiles == (if !q.read && !keep then s.openFiles - {q.name} else s.openFiles)
      && (if GoesOn(q, ret, keep, id') then
            && id'.value in t.requests && t.requests - {id'.value} == s.requests - {id} && t.freed == s.freed
            && HandsOver(q, t.requests[id'.value])
          else
            && t.requests == s.requests - {id} && |t.freed| == |s.freed| + 1 && t.freed[..|s.freed|] == s.freed
            && HandsOver(q, t.freed[|s.freed|])
            && (q.read && ret == 0 ==> Remaining(t.freed[|s.freed|]) == []))
  }

  lemma AdvancedHandsOver(q: Request, ret: int)
    requires Faithful(q) && GoodReturn(q, ret)
    ensures HandsOver(q, Advanced(q, ret)) && (q.read && ret == 0 ==> Remaining(Advanced(q, ret)) == [])
  {
    if q.read {
      var r := Advanced(q, ret);
      assert q.got + Remaining(q) == q.file[q.start..];
      if ret > 0 {
        assert r.got == q.file[q.start..r.offset] by { AdvancedFaithful(q, ret); }
        assert r.got + Remaining(r) == q.file[q.start..];
      }
    }
  }

  lemma CompletionKeeps(s: State, id: int, ret: int, keep: bool, id': Option<int>)
    requires Inv(s) && Possible(s, DoneEvent(id, ret, keep, id'))
    ensures var t := Complete(s, id, ret, keep, id'); Inv(t) && Completed(s, t, id, ret, keep, id')
  {
    NextKeeps(s, DoneEvent(id, ret, keep, id'));
    if id in s.requests {
      var q := s.requests[id];
      assert Faithful(q);
      AdvancedHandsOver(q, ret);
      AdvancedFlags(q, ret);
      hide Inv, Advanced, HandsOver, Remaining;
      var r := Advanced(q, ret);
      assert s.requests[id := r] - {id} == s.requests - {id};
      if GoesOn(q, ret, keep, id') {
        assert (s.requests[id := r] - {id})[id'.value := r] - {id'.value} == s.requests - {id};
      }
    }
  }

  lemma AdvancedFlags(q: Request, ret: int)
    ensures var r := Advanced(q, ret); r.read == q.read && r.name == q.name && (r.eof <==> q.eof || ret == 0)
  {
  }

  class Files {
    var openFiles: map<string, Handle>
    var requests: map<int, Request>
    var openings: nat
    var next: nat
    ghost var freed: seq<Request>
    ghost var leaked: seq<nat>
    ghost var issued: seq<Issued>

    ghost function View(): State
      reads this
    {
      State(openFiles, requests, openings, next, freed, leaked, issued)
    }

    /** One request under one id, freed once; reads hand over their files; handles are different. */
    ghost predicate Valid()
      reads this
    {
      Inv(View())
    }

    constructor ()
      ensures Valid() && View() == Initial()
    {
      openFiles, requests, openings, next, freed, leaked, issued := map[], map[], 0, 0, [], [], [];
    }

    /** swoole_async_write; false when the job is not taken. */
    method AsyncWrite(name: string, length: nat, offset: int, size: nat, id: Option<int>) returns (ok: bool)
      requires Valid() && GoodId(View(), id)
      modifies this
      ensures Valid() && ok == id.Some? && Written(old(View()), View(), name, length, offset, size, id)
      ensures View() == Write(old(View()), name, length, offset, size, id)
    {
      hide Inv, Written, GoodId;
      WriteKeeps(View(), name, length, offset, size, id);
      var at: nat;
      if name !in openFiles {
        if offset < 0 {
          at := size;
          openFiles := openFiles[name := Handle(at + length, openings)];
        } else {
          at := offset;
          openFiles := openFiles[name := Handle(0, openings)];
        }
        openings := openings + 1;
      } else if offset < 0 {
        at := openFiles[name].pos;
        openFiles := openFiles[name := openFiles[name].(pos := at + length)];
      } else {
        at := offset;
        assert openFiles == openFiles[name := openFiles[name]];
      }
      var req := Request(next, false, name, at, length, [], 0, [], false);
      next := next + 1;
      if id.None? {
        leaked := leaked + [req.uid];
        return false;
      }
      requests := requests[id.value := req];
      issued := issued + [Issued(openFiles[name].opening, at, length, offset < 0)];
      return true;
    }

    /** swoole_async_read. */
    method AsyncRead(name: string, length: nat, offset: int, file: seq<Byte>, id: Option<int>) returns (ok: bool)
      requires Valid() && GoodId(View(), id)
      modifies this`requests, this`next, this`leaked
      ensures Valid() && (ok <==> 0 <= offset < |file| && id.Some?)
      ensures Begun(old(View()), View(), name, length, offset, file, id)
      ensures View() == Read(old(View()), name, length, offset, file, id)
    {
      hide Inv, Begun, GoodId;
      ReadKeeps(View(), name, length, offset, file, id);
      if offset < 0 || offset >= |file| { return false; }
      var req := Request(next, true, name, offset, length, file, offset, [], false);
      next := next + 1;
      if id.None? {
        leaked := leaked + [req.uid];
        return false;
      }
      requests := requests[id.value := req];
      return true;
    }

    method FreeRequest(id: int)
      requires id in requests
      modifies this`requests, this`freed
      ensures View() == Free(old(View()), id)
    {
      freed := freed + [requests[id]];
      requests := requests - {id};
    }

    /** php_swoole_aio_onComplete. */
    method OnComplete(id: int, ret: int, keep: bool, id': Option<int>)
      requires Valid() && Possible(View(), DoneEvent(id, ret, keep, id'))
      modifies this`openFiles, this`requests, this`freed
      ensures Valid() && Completed(old(View()), View(), id, ret, keep, id')
      ensures View() == Complete(old(View()), id, ret, keep, id')
    {
      hide Inv, Completed, Possible;
      CompletionKeeps(View(), id, ret, keep, id');
      if id !in requests { return; }
      var q := requests[id];
      if ret == 0 {
        q := q.(eof := true);
      } else if ret > 0 && q.read && q.offset + ret <= |q.file| {
        q := q.(got := q.got + q.file[q.offset..q.offset + ret], offset := q.offset + ret);
      }
      requests := requests[id := q];
      if !q.read {
        if !keep { openFiles := openFiles - {q.name}; }
        FreeRequest(id);
      } else if !keep || q.eof || id'.None? {
        FreeRequest(id);
      } else {
        requests := (requests - {id})[id'.value := q];
      }
    }
  }
}
