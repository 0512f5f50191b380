/** Listing the server's connections: by pages with connection_list, and with the iterator. */
module Paging {
  import opened Options

  /** `ready` is false while a TLS handshake is under way. */
  datatype Conn = Conn(active: bool, closed: bool, ready: bool, session: nat)

  const MAX_FIND_COUNT := 100
  const SESSION_LIST_SIZE := 0x10_0000

  /** The connection table indexed by descriptor, and the session table's descriptors. */
  datatype Server = Server(conns: seq<Conn>, sessions: seq<nat>, minFd: nat, maxFd: nat)

  ghost predicate Valid(s: Server) {
    |s.sessions| == SESSION_LIST_SIZE && 2 <= s.minFd && s.maxFd < |s.conns|
  }

  /** Every connection is found through its session. */
  ghost predicate Linked(s: Server)
    requires |s.sessions| == SESSION_LIST_SIZE
  {
    forall fd :: 2 < fd < |s.conns| && s.conns[fd].active ==>
      s.conns[fd].session > 0 && s.sessions[s.conns[fd].session % SESSION_LIST_SIZE] == fd
  }

  // ------------------------------------------------------------------------- sessions

  /** Connecting: the session id whose slot was found vacant is given to the connection. */
  function Opened(s: Server, fd: nat, id: nat, ready: bool): Server
    requires fd < |s.conns| && |s.sessions| == SESSION_LIST_SIZE
  {
    s.(conns := s.conns[fd := Conn(true, false, ready, id)], sessions := s.sessions[id % SESSION_LIST_SIZE := fd])
  }

  function Closed(s: Server, fd: nat): Server
    requires fd < |s.conns| && |s.sessions| == SESSION_LIST_SIZE
  {
    s.(conns := s.conns[fd := s.conns[fd].(active := false)],
       sessions := s.sessions[s.conns[fd].session % SESSION_LIST_SIZE := 0])
  }

  lemma OpenKeepsLinked(s: Server, fd: nat, id: nat, ready: bool)
    requires Valid(s) && Linked(s) && 2 < fd < |s.conns| && !s.conns[fd].active
    requires id > 0 && s.sessions[id % SESSION_LIST_SIZE] == 0
    ensures Linked(Opened(s, fd, id, ready))
  {
  }

  lemma CloseKeepsLinked(s: Server, fd: nat)
    requires Valid(s) && Linked(s) && 2 < fd < |s.conns| && s.conns[fd].active
    ensures Linked(Closed(s, fd))
  {
  }

  // --------------------------------------------------------------------------- listing

  predicate Shown(c: Conn, tls: bool) {
    c.active && !c.closed && (tls ==> c.ready)
  }

  /** The descriptors in lo..hi - 1 whose connections are shown, in order. */
  function Listed(s: Server, lo: nat, hi: nat, tls: bool): (r: seq<nat>)
    requires lo <= hi <= |s.conns|
    ensures forall k :: 0 <= k < |r| ==> lo <= r[k] < hi && Shown(s.conns[r[k]], tls)
    decreases hi - lo
  {
    if lo == hi then []
    else if Shown(s.conns[lo], tls) then [lo] + Listed(s, lo + 1, hi, tls)
    else Listed(s, lo + 1, hi, tls)
  }

  /** Each shown descriptor is listed, once, and they increase. */
  lemma {:induction false} ListedIsAll(s: Server, lo: nat, hi: nat, tls: bool)
    requires lo <= hi <= |s.conns|
    ensures var r := Listed(s, lo, hi, tls);
            && (forall fd :: lo <= fd < hi ==> (fd in r <==> Shown(s.conns[fd], tls)))
            && (forall i, j :: 0 <= i < j < |r| ==> r[i] < r[j])
    decreases hi - lo
  {
    if lo < hi { ListedIsAll(s, lo + 1, hi, tls); }
  }

  lemma {:induction false} ListedAfter(s: Server, lo: nat, hi: nat, k: nat)
    requires lo <= hi <= |s.conns| && k < |Listed(s, lo, hi, false)|
    ensures Listed(s, Listed(s, lo, hi, false)[k] + 1, hi, false) == Listed(s, lo, hi, false)[k + 1..]
    decreases hi - lo
  {
    if !Shown(s.conns[lo], false) {
      ListedAfter(s, lo + 1, hi, k);
    } else if k > 0 {
      ListedAfter(s, lo + 1, hi, k - 1);
    }
  }

  function Ids(s: Server, fds: seq<nat>): (r: seq<nat>)
    requires forall k :: 0 <= k < |fds| ==> fds[k] < |s.conns|
    ensures |r| == |fds|
    ensures forall k :: 0 <= k < |fds| ==> r[k] == s.conns[fds[k]].session
  {
    seq(|fds|, k requires 0 <= k < |fds| => s.conns[fds[k]].session)
  }

  lemma NoIds(s: Server)
    ensures Ids(s, []) == []
  {
  }

  lemma IdsSnoc(s: Server, fds: seq<nat>, n: nat)
    requires n < |fds| && forall k :: 0 <= k < |fds| ==> fds[k] < |s.conns|
    ensures Ids(s, fds[..n + 1]) == Ids(s, fds[..n]) + [s.conns[fds[n]].session]
  {
  }

  // --------------------------------------------------------------------- one page

  /** swWorker_get_connection. */
  function FdOf(s: Server, id: int): Option<nat>
    requires |s.sessions| == SESSION_LIST_SIZE
  {
    var fd := s.sessions[id % SESSION_LIST_SIZE];
    if fd >= |s.conns| || fd <= 2 then None else Some(fd)
  }

  /** Where a page starts: behind this descriptor. */
  function StartOf(s: Server, start: int): Option<nat>
    requires |s.sessions| == SESSION_LIST_SIZE
  {
    if start == 0 then Some(s.minFd) else FdOf(s, start)
  }

  /** A page has the first `count` of the listed descriptors, but looks at one at least. */
  function Page(s: Server, from: nat, count: int): (r: seq<nat>)
    requires from < |s.conns| && s.maxFd < |s.conns| && from < s.maxFd
    ensures forall k :: 0 <= k < |r| ==> r[k] < |s.conns|
  {
    if count <= 0 then Listed(s, from + 1, from + 2, false)
    else
      var all := Listed(s, from + 1, s.maxFd + 1, false);
      if |all| <= count then all else all[..count]
  }

  lemma {:induction false} ListedSnoc(s: Server, lo: nat, hi: nat)
    requires lo <= hi < |s.conns|
    ensures Listed(s, lo, hi + 1, false) == Listed(s, lo, hi, false) + if Shown(s.conns[hi], false) then [hi] else []
    decreases hi - lo
  {
    if lo < hi { ListedSnoc(s, lo + 1, hi); }
  }

  lemma {:induction false} ListedSplit(s: Server, lo: nat, mid: nat, hi: nat)
    requires lo <= mid <= hi <= |s.conns|
    ensures Listed(s, lo, hi, false) == Listed(s, lo, mid, false) + Listed(s, mid, hi, false)
    decreases mid - lo
  {
    if lo < mid { ListedSplit(s, lo + 1, mid, hi); }
  }

  /** Stopping at the descriptor that uses up the count leaves the page. */
  lemma PageStops(s: Server, from: nat, fd: nat, count: int)
    requires from < fd <= s.maxFd < |s.conns|
    requires |Listed(s, from + 1, fd + 1, false)| >= count
    requires fd == from + 1 || |Listed(s, from + 1, fd, false)| < count
    ensures Page(s, from, count) == Listed(s, from + 1, fd + 1, false)
  {
    ListedSnoc(s, from + 1, fd);
    ListedSplit(s, from + 1, fd + 1, s.maxFd + 1);
  }

  /** The loop of connection_list. */
  method Scan(s: Server, from: nat, findCount: int) returns (ids: seq<nat>)
    requires from < s.maxFd < |s.conns|
    ensures ids == Ids(s, Page(s, from, findCount))
  {
    ghost var fds: seq<nat> := [];
    ids := [];
    var count := findCount;
    var fd := from + 1;
    while fd <= s.maxFd
      invariant from + 1 <= fd <= s.maxFd + 1
      invariant fds == Listed(s, from + 1, fd, false) && ids == Ids(s, fds)
      invariant count == findCount - |fds| && (fd > from + 1 ==> count > 0)
    {
      ListedSnoc(s, from + 1, fd);
      if s.conns[fd].active && !s.conns[fd].closed {
        ids := ids + [s.conns[fd].session];
        fds := fds + [fd];
        count := count - 1;
      }
      if count <= 0 {
        PageStops(s, from, fd, findCount);
        return;
      }
      fd := fd + 1;
    }
  }

  /** swoole_server::connection_list. */
  method ConnectionList(s: Server, start: int, findCount: int) returns (r: Option<seq<nat>>)
    requires Valid(s)
    ensures r == Answer(s, start, findCount)
  {
    if findCount > MAX_FIND_COUNT { return None; }
    var from := s.minFd;
    if start != 0 {
      var conn := FdOf(s, start);
      if conn.None? { return None; }
      from := conn.value;
    }
    if from >= s.maxFd { return None; }
    var ids := Scan(s, from, findCount);
    r := Some(ids);
  }

  /** What connection_list returns; None is false. */
  function Answer(s: Server, start: int, findCount: int): Option<seq<nat>>
    requires |s.sessions| == SESSION_LIST_SIZE && s.maxFd < |s.conns|
  {
    var from := StartOf(s, start);
    if findCount > MAX_FIND_COUNT || from.None? || from.value >= s.maxFd then None
    else Some(Ids(s, Page(s, from.value, findCount)))
  }

  // ------------------------------------------------------------------- following pages

  /** Pages of the given sizes, each asked for behind the last id of the one before, until there is
      no page or an empty one. */
  function Follow(s: Server, start: int, sizes: seq<int>): seq<nat>
    requires |s.sessions| == SESSION_LIST_SIZE && s.maxFd < |s.conns|
    decreases |sizes|
  {
    if sizes == [] then []
    else match Answer(s, start, sizes[0])
         case None => []
         case Some(ids) => if ids == [] then [] else ids + Follow(s, ids[|ids| - 1], sizes[1..])
  }

  function Sum(sizes: seq<int>): int {
    if sizes == [] then 0 else sizes[0] + Sum(sizes[1..])
  }

  function Least(a: int, b: int): int {
    if a <= b then a else b
  }

  ghost predicate PageSizes(sizes: seq<int>) {
    forall k :: 0 <= k < |sizes| ==> 1 <= sizes[k] <= MAX_FIND_COUNT
  }

  lemma {:induction false} SumPositive(sizes: seq<int>)
    requires PageSizes(sizes)
    ensures Sum(sizes) >= |sizes|
  {
    if sizes != [] { SumPositive(sizes[1..]); }
  }

  /** The last id of a page leads back to the last descriptor of the page. */
  lemma LastLeadsBack(s: Server, fd: nat)
    requires Valid(s) && Linked(s) && 2 < fd < |s.conns| && s.conns[fd].active
    ensures StartOf(s, s.conns[fd].session) == Some(fd)
  {
  }

  lemma IdsConcat(s: Server, all: seq<nat>, n: nat, m: nat)
    requires n <= m <= |all| && forall k :: 0 <= k < |all| ==> all[k] < |s.conns|
    ensures Ids(s, all[..n]) + Ids(s, all[n..][..m - n]) == Ids(s, all[..m])
  {
    assert all[..n] + all[n..][..m - n] == all[..m];
  }

  /** What is listed behind `from`. */
  function Behind(s: Server, from: nat): (r: seq<nat>)
    requires s.maxFd < |s.conns|
    ensures forall k :: 0 <= k < |r| ==> from < r[k] < |s.conns| && s.conns[r[k]].active
  {
    if from < s.maxFd then Listed(s, from + 1, s.maxFd + 1, false) else []
  }

  /** One page, in terms of what is listed behind its start. */
  lemma FollowStep(s: Server, start: int, from: nat, sizes: seq<int>)
    requires Valid(s) && StartOf(s, start) == Some(from) && sizes != [] && 1 <= sizes[0] <= MAX_FIND_COUNT
    ensures var all := Behind(s, from); var n := Least(sizes[0], |all|);
            Follow(s, start, sizes) ==
            if n == 0 then [] else Ids(s, all[..n]) + Follow(s, s.conns[all[n - 1]].session, sizes[1..])
  {
    hide StartOf, Listed, Shown, Page, Ids;
    if from < s.maxFd {
      PageBehind(s, from, sizes[0]);
      hide Behind;
      var page := Page(s, from, sizes[0]);
      assert Answer(s, start, sizes[0]) == Some(Ids(s, page));
      assert page != [] ==> Ids(s, page)[|page| - 1] == s.conns[page[|page| - 1]].session;
    }
  }

  lemma PageBehind(s: Server, from: nat, count: int)
    requires from < s.maxFd < |s.conns| && count >= 1
    ensures Page(s, from, count) == Behind(s, from)[..Least(count, |Behind(s, from)|)]
  {
    hide Listed;
  }

  lemma BehindLast(s: Server, from: nat, k: nat)
    requires s.maxFd < |s.conns| && k < |Behind(s, from)|
    ensures Behind(s, Behind(s, from)[k]) == Behind(s, from)[k + 1..]
  {
    ListedAfter(s, from + 1, s.maxFd + 1, k);
  }

  lemma {:induction false} FollowFrom(s: Server, start: int, from: nat, sizes: seq<int>)
    requires Valid(s) && Linked(s) && PageSizes(sizes) && 2 <= from && StartOf(s, start) == Some(from)
    ensures var all := Behind(s, from);
            0 <= Sum(sizes) && Follow(s, start, sizes) == Ids(s, all[..Least(Sum(sizes), |all|)])
    decreases |sizes|
  {
    hide Linked, FdOf, StartOf, Follow, Page, Behind, Ids, Sum, Shown;
    SumPositive(sizes);
    SumStep(sizes);
    if sizes != [] {
      SumPositive(sizes[1..]);
      FollowStep(s, start, from, sizes);
      var all := Behind(s, from);
      var n := Least(sizes[0], |all|);
      if n > 0 {
        var last := all[n - 1];
        LastLeadsBack(s, last);
        BehindLast(s, from, n - 1);
        FollowFrom(s, s.conns[last].session, last, sizes[1..]);
        IdsConcat(s, all, n, Least(Sum(sizes), |all|));
      } else {
        NoIds(s);
      }
    } else {
      NoIds(s);
      NoPages(s, start);
    }
  }

  lemma SumStep(sizes: seq<int>)
    ensures Sum(sizes) == if sizes == [] then 0 else sizes[0] + Sum(sizes[1..])
  {
  }

  lemma NoPages(s: Server, start: int)
    requires Valid(s)
    ensures Follow(s, start, []) == []
  {
  }

  /** Following the pages from zero lists, in increasing order of descriptors and each once, the
      connections above the least descriptor, whatever the sizes of the pages; with sizes that sum
      up to their number it lists all of them, and then there is nothing more. */
  lemma FollowListsAll(s: Server, sizes: seq<int>)
    requires Valid(s) && Linked(s) && PageSizes(sizes)
    ensures var all := Behind(s, s.minFd);
            && 0 <= Sum(sizes)
            && Follow(s, 0, sizes) == Ids(s, all[..Least(Sum(sizes), |all|)])
            && (Sum(sizes) >= |all| ==> Follow(s, 0, sizes) == Ids(s, all))
  {
    assert StartOf(s, 0) == Some(s.minFd);
    FollowFrom(s, 0, s.minFd, sizes);
    hide Linked, StartOf, Follow, Behind, Ids, Sum;
    var all := Behind(s, s.minFd);
    assert all[..|all|] == all;
  }

  lemma {:induction false} ListedNone(s: Server, lo: nat, hi: nat)
    requires lo <= hi <= |s.conns| && forall k :: lo <= k < hi ==> !Shown(s.conns[k], false)
    ensures Listed(s, lo, hi, false) == []
    decreases hi - lo
  {
    if lo < hi { ListedNone(s, lo + 1, hi); }
  }

  /** Behind the last connection there is no page, or an empty one. */
  lemma NothingBehindLast(s: Server, fd: nat, count: int)
    requires Valid(s) && Linked(s) && 2 < fd < |s.conns| && s.conns[fd].active && count > 0
    requires forall k :: fd < k <= s.maxFd ==> !Shown(s.conns[k], false)
    ensures Answer(s, s.conns[fd].session, count) in {None, Some([])}
  {
    LastLeadsBack(s, fd);
    if fd < s.maxFd {
      ListedNone(s, fd + 1, s.maxFd + 1);
    }
  }

  // ------------------------------------------------------------------------ the iterator

  /** What is shown from `fd` on. */
  function Onward(s: Server, fd: nat, tls: bool): (r: seq<nat>)
    requires s.maxFd < |s.conns|
    ensures forall k :: 0 <= k < |r| ==> fd <= r[k] < |s.conns|
  {
    if fd <= s.maxFd then Listed(s, fd, s.maxFd + 1, tls) else []
  }

  class ConnectionIterator {
    var currentFd: nat
    var sessionId: nat
    var index: nat

    constructor ()
    {
      currentFd, sessionId, index := 0, 0, 0;
    }

    method Rewind(s: Server)
      modifies this
      ensures currentFd == s.minFd && sessionId == 0 && index == 0
    {
      sessionId, index := 0, 0;
      currentFd := s.minFd;
    }

    /** Moves to the first shown connection from the current descriptor on, if there is one. */
    method HasCurrent(s: Server, tls: bool) returns (ok: bool)
      requires s.maxFd < |s.conns|
      modifies this
      ensures var rest := Onward(s, old(currentFd), tls);
              && (ok <==> rest != [])
              && (ok ==> && currentFd == rest[0] && sessionId == s.conns[rest[0]].session && index == old(index) + 1
                         && Onward(s, currentFd + 1, tls) == rest[1..])
      ensures !ok ==> currentFd == old(currentFd) && index == old(index) && sessionId == old(sessionId)
    {
      var fd := currentFd;
      while fd <= s.maxFd
        invariant old(currentFd) <= fd && Onward(s, fd, tls) == Onward(s, old(currentFd), tls)
        invariant currentFd == old(currentFd) && index == old(index) && sessionId == old(sessionId)
      {
        var conn := s.conns[fd];
        if conn.active && !conn.closed && !(tls && !conn.ready) {
          sessionId, currentFd, index := conn.session, fd, index + 1;
          return true;
        }
        fd := fd + 1;
      }
      return false;
    }

    method MoveNext()
      modifies this`currentFd
      ensures currentFd == old(currentFd) + 1
    {
      currentFd := currentFd + 1;
    }

    /** A foreach over the iterator gives what the pages give, the least descriptor's connection
        before it, and without the connections that are still shaking hands. */
    method Visit(s: Server, tls: bool) returns (ids: seq<nat>)
      requires s.maxFd < |s.conns|
      modifies this
      ensures ids == Ids(s, Onward(s, s.minFd, tls)) && index == |ids|
    {
      Rewind(s);
      NoIds(s);
      hide Onward, Ids;
      ids := [];
      ghost var all := Onward(s, s.minFd, tls);
      while true
        invariant index == |ids| <= |all| && ids == Ids(s, all[..|ids|])
        invariant Onward(s, currentFd, tls) == all[|ids|..]
        decreases |all| - |ids|
      {
        ghost var n := |ids|;
        var ok := HasCurrent(s, tls);
        if !ok { break; }
        IdsSnoc(s, all, n);
        ids := ids + [sessionId];
        MoveNext();
      }
      assert all[..|ids|] == all;
    }
  }

  /** Behind the least descriptor's connection the iterator visits what the pages list, exactly if
      none of those is still shaking hands under TLS. */
  lemma IteratorVersusPages(s: Server, tls: bool)
    requires s.maxFd < |s.conns|
    ensures var least := if s.minFd <= s.maxFd && Shown(s.conns[s.minFd], tls) then [s.minFd] else [];
            Onward(s, s.minFd, tls) == least + Behind(s, s.minFd)
            <==> forall fd :: s.minFd < fd <= s.maxFd && Shown(s.conns[fd], false) ==> Shown(s.conns[fd], tls)
  {
    if s.minFd <= s.maxFd {
      IteratorAgrees(s, s.minFd + 1, s.maxFd + 1, tls);
      var least := if Shown(s.conns[s.minFd], tls) then [s.minFd] else [];
      var rest := Listed(s, s.minFd + 1, s.maxFd + 1, tls);
      assert Onward(s, s.minFd, tls) == least + rest;
      assert (least + rest)[|least|..] == rest;
      assert (least + Behind(s, s.minFd))[|least|..] == Behind(s, s.minFd);
    }
  }

  lemma {:induction false} IteratorAgrees(s: Server, lo: nat, hi: nat, tls: bool)
    requires lo <= hi <= |s.conns|
    ensures Listed(s, lo, hi, tls) == Listed(s, lo, hi, false)
            <==> forall fd :: lo <= fd < hi && Shown(s.conns[fd], false) ==> Shown(s.conns[fd], tls)
  {
    ListedIsAll(s, lo, hi, tls);
    ListedIsAll(s, lo, hi, false);
    if forall fd :: lo <= fd < hi && Shown(s.conns[fd], false) ==> Shown(s.conns[fd], tls) {
      SameShown(s, lo, hi, tls);
    } else {
      var fd :| lo <= fd < hi && Shown(s.conns[fd], false) && !Shown(s.conns[fd], tls);
      assert fd in Listed(s, lo, hi, false) && fd !in Listed(s, lo, hi, tls);
    }
  }

  lemma {:induction false} SameShown(s: Server, lo: nat, hi: nat, tls: bool)
    requires lo <= hi <= |s.conns|
    requires forall fd :: lo <= fd < hi && Shown(s.conns[fd], false) ==> Shown(s.conns[fd], tls)
    ensures Listed(s, lo, hi, tls) == Listed(s, lo, hi, false)
    decreases hi - lo
  {
    if lo < hi { SameShown(s, lo + 1, hi, tls); }
  }
}
