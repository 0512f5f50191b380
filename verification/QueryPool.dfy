/**
  * The connection pool of the MySQL proxy example: idle and busy connections, a bounded
  * queue of waiting requests, and the event handlers that move requests along.
  */
module QueryPool {
  import opened Options

  const WAIT_QUEUE_MAX: nat := 100

  /** A request, numbered in the order of acceptance. */
  datatype Job = Job(id: nat, fd: int, sql: string)

  /** A connection. `fd` is the client it works for; `job` records which request that is. */
  datatype Conn = Conn(sock: int, fd: int, job: Job)

  datatype Answer = Answer(job: Job, fd: int)

  datatype Pool = Pool(
    idle: seq<Conn>, busy: map<int, Conn>, wait: seq<Job>,
    accepted: seq<Job>, dispatched: seq<Job>, answers: seq<Answer>, refused: seq<int>)

  // ------------------------------------------------------------------ the handlers

  /** doQuery: take the last idle connection. None: there is none to take. */
  function Dispatch(s: Pool, job: Job): Option<Pool> {
    if s.idle == [] then None
    else
      var db := s.idle[|s.idle| - 1];
      Some(s.(idle := s.idle[..|s.idle| - 1],
              busy := s.busy[db.sock := db.(fd := job.fd, job := job)],
              dispatched := s.dispatched + [job]))
  }

  function Arrive(s: Pool, fd: int, sql: string): Option<Pool> {
    var job := Job(|s.accepted|, fd, sql);
    if |s.idle| == 0 then
      if |s.wait| < WAIT_QUEUE_MAX
      then Some(s.(wait := s.wait + [job], accepted := s.accepted + [job]))
      else Some(s.(refused := s.refused + [fd]))
    else Dispatch(s.(accepted := s.accepted + [job]), job)
  }

  /** The loop at the end of onSQLReady, `n` rounds of it. None: it shifts from an empty queue. */
  function Drain(s: Pool, n: nat): Option<Pool>
    decreases n
  {
    if n == 0 then Some(s)
    else if s.wait == [] then None
    else
      match Dispatch(s.(wait := s.wait[1..]), s.wait[0])
      case None => None
      case Some(t) => Drain(t, n - 1)
  }

  function Release(s: Pool, sock: int): Pool
    requires sock in s.busy
  {
    s.(answers := s.answers + [Answer(s.busy[sock].job, s.busy[sock].fd)],
       idle := s.idle + [s.busy[sock]],
       busy := map k | k in s.busy && k != sock :: s.busy[k])
  }

  /** onSQLReady. None: no query is outstanding on this socket, or the drain fails. */
  function Complete(s: Pool, sock: int): Option<Pool> {
    if sock !in s.busy then None
    else
      var t := Release(s, sock);
      if |t.wait| > 0 then Drain(t, |t.idle|) else Some(t)
  }

  // ------------------------------------------------------------------ the invariant

  /** Idle and busy connections are disjoint and are together all connections. */
  ghost predicate Sockets(s: Pool, all: set<int>) {
    && (forall i, j :: 0 <= i < j < |s.idle| ==> s.idle[i].sock != s.idle[j].sock)
    && (forall i :: 0 <= i < |s.idle| ==> s.idle[i].sock in all && s.idle[i].sock !in s.busy)
    && (forall k :: k in s.busy ==> k in all && s.busy[k].sock == k)
    && |s.idle| + |s.busy| == |all|
  }

  /** A connection or an answer stands for a dispatched request and carries its client. */
  ghost predicate Genuine(s: Pool, job: Job, fd: int) {
    job.id < |s.dispatched| && s.dispatched[job.id] == job && fd == job.fd
  }

  /** Every dispatched request is being worked on once or has been answered once. */
  ghost predicate Served(s: Pool) {
    && (forall k :: k in s.busy ==> Genuine(s, s.busy[k].job, s.busy[k].fd))
    && (forall i :: 0 <= i < |s.answers| ==> Genuine(s, s.answers[i].job, s.answers[i].fd))
    && (forall k, l :: k in s.busy && l in s.busy && k != l ==> s.busy[k].job.id != s.busy[l].job.id)
    && (forall i, j :: 0 <= i < j < |s.answers| ==> s.answers[i].job.id != s.answers[j].job.id)
    && (forall k, i :: k in s.busy && 0 <= i < |s.answers| ==> s.busy[k].job.id != s.answers[i].job.id)
    && |s.dispatched| == |s.answers| + |s.busy|
  }

  /** Requests leave in the order in which they came: dispatched, then `next`, then waiting. */
  ghost predicate InOrder(s: Pool, next: seq<Job>) {
    && s.accepted == s.dispatched + next + s.wait
    && (forall i :: 0 <= i < |s.accepted| ==> s.accepted[i].id == i)
  }

  ghost predicate Inv(s: Pool, all: set<int>) {
    && Sockets(s, all) && Served(s) && InOrder(s, [])
    && (s.wait != [] ==> s.idle == [])
    && |s.wait| <= WAIT_QUEUE_MAX
  }

  // --------------------------------------------------------------- it is preserved

  lemma DoQueryKeeps(s: Pool, all: set<int>, job: Job)
    requires Sockets(s, all) && Served(s) && InOrder(s, [job]) && s.idle != []
    ensures var r := Dispatch(s, job);
            && r.Some? && Sockets(r.value, all) && Served(r.value) && InOrder(r.value, [])
            && |r.value.idle| == |s.idle| - 1 && r.value.wait == s.wait
  {
    hide Served, InOrder;
    var t := Dispatch(s, job).value;
    var db := s.idle[|s.idle| - 1];
    assert |s.busy[db.sock := db.(fd := job.fd, job := job)]| == |s.busy| + 1;
    DispatchKeepsOrder(s, t, job);
    DispatchKeepsServed(s, t, job, db.sock);
  }

  lemma DispatchKeepsOrder(s: Pool, t: Pool, job: Job)
    requires InOrder(s, [job])
    requires t.accepted == s.accepted && t.dispatched == s.dispatched + [job] && t.wait == s.wait
    ensures InOrder(t, [])
    ensures job.id == |s.dispatched|
  {
    assert s.accepted[|s.dispatched|] == job;
  }

  lemma DispatchKeepsServed(s: Pool, t: Pool, job: Job, sock: int)
    requires Served(s) && job.id == |s.dispatched| && sock !in s.busy
    requires t.dispatched == s.dispatched + [job] && t.answers == s.answers
    requires sock in t.busy && t.busy[sock].job == job && t.busy[sock].fd == job.fd
    requires forall k :: k in t.busy <==> k in s.busy || k == sock
    requires forall k :: k in s.busy ==> t.busy[k] == s.busy[k]
    requires |t.busy| == |s.busy| + 1
    ensures Served(t)
  {
    forall k | k in t.busy ensures Genuine(t, t.busy[k].job, t.busy[k].fd) {
      if k != sock { assert Genuine(s, s.busy[k].job, s.busy[k].fd); }
    }
    forall i | 0 <= i < |t.answers| ensures Genuine(t, t.answers[i].job, t.answers[i].fd) {
      assert Genuine(s, s.answers[i].job, s.answers[i].fd);
    }
  }

  lemma ReceiveKeeps(s: Pool, all: set<int>, fd: int, sql: string)
    requires Inv(s, all)
    ensures var r := Arrive(s, fd, sql); r.Some? && Inv(r.value, all)
  {
    hide Served, Sockets;
    var job := Job(|s.accepted|, fd, sql);
    if |s.idle| != 0 {
      var t := s.(accepted := s.accepted + [job]);
      assert InOrder(t, [job]);
      SameServed(s, t, all);
      DoQueryKeeps(t, all, job);
    } else {
      var t := Arrive(s, fd, sql).value;
      SameServed(s, t, all);
      assert t.dispatched + [] + t.wait == t.accepted;
    }
  }

  /** The queue and the list of accepted requests do not enter into these two. */
  lemma SameServed(s: Pool, t: Pool, all: set<int>)
    requires t == s.(accepted := t.accepted, wait := t.wait, refused := t.refused)
    requires Served(s) && Sockets(s, all)
    ensures Served(t) && Sockets(t, all)
  {
    forall k | k in t.busy ensures Genuine(t, t.busy[k].job, t.busy[k].fd) {
      assert Genuine(s, s.busy[k].job, s.busy[k].fd);
    }
    forall i | 0 <= i < |t.answers| ensures Genuine(t, t.answers[i].job, t.answers[i].fd) {
      assert Genuine(s, s.answers[i].job, s.answers[i].fd);
    }
  }

  lemma ReleaseKeeps(s: Pool, all: set<int>, sock: int)
    requires Sockets(s, all) && Served(s) && sock in s.busy
    ensures Sockets(Release(s, sock), all) && Served(Release(s, sock))
    ensures |Release(s, sock).idle| == |s.idle| + 1
  {
    var t := Release(s, sock);
    assert t.busy.Keys == s.busy.Keys - {sock};
    assert |t.busy| == |t.busy.Keys| == |s.busy.Keys| - 1;
    forall k | k in t.busy ensures Genuine(t, t.busy[k].job, t.busy[k].fd) {
      assert Genuine(s, s.busy[k].job, s.busy[k].fd);
    }
    forall i | 0 <= i < |t.answers| ensures Genuine(t, t.answers[i].job, t.answers[i].fd) {
      if i < |s.answers| {
        assert Genuine(s, s.answers[i].job, s.answers[i].fd);
      } else {
        assert Genuine(s, s.busy[sock].job, s.busy[sock].fd);
      }
    }
  }

  /** A socket that becomes readable is handled if and only if a query is outstanding on it. The
      invariant is what makes the drain loop correct: when anything waits, the connection just
      released is the only idle one, so the loop goes round once. */
  lemma ReadyKeeps(s: Pool, all: set<int>, sock: int)
    requires Inv(s, all)
    ensures Complete(s, sock).Some? <==> sock in s.busy
    ensures Complete(s, sock).Some? ==> Inv(Complete(s, sock).value, all)
  {
    hide Inv, Complete, Release;
    if sock in s.busy { AnswerKeeps(s, all, sock); } else { NoQueryFails(s, sock); }
  }

  lemma NoQueryFails(s: Pool, sock: int)
    requires sock !in s.busy
    ensures Complete(s, sock) == None
  {
  }

  /** The failing input, in every reachable state: an idle connection that becomes readable, as when
      the server closes it. */
  lemma IdleSocketFails(s: Pool, all: set<int>, k: nat)
    requires Inv(s, all) && k < |s.idle|
    ensures Complete(s, s.idle[k].sock) == None
  {
    assert s.idle[k].sock !in s.busy;
  }

  lemma AnswerKeeps(s: Pool, all: set<int>, sock: int)
    requires Inv(s, all) && sock in s.busy
    ensures var r := Complete(s, sock); r.Some? && Inv(r.value, all)
  {
    hide Served, Sockets;
    var t := Release(s, sock);
    ReleaseKeeps(s, all, sock);
    if |t.wait| > 0 {
      assert |t.idle| == 1;
      var job := t.wait[0];
      var u := t.(wait := t.wait[1..]);
      SameServed(t, u, all);
      assert u.dispatched + [job] + u.wait == s.dispatched + [] + s.wait;
      DoQueryKeeps(u, all, job);
      var v := Dispatch(u, job).value;
      assert Drain(t, 1) == Drain(v, 0) == Some(v);
    }
  }

  // ------------------------------------------------------------------------- runs

  datatype Event = Receive(fd: int, sql: string) | Ready(sock: int)

  function Next(s: Pool, e: Event): Option<Pool> {
    match e
    case Receive(fd, sql) => Arrive(s, fd, sql)
    case Ready(sock) => Complete(s, sock)
  }

  function Run(s: Pool, es: seq<Event>): Option<Pool>
    decreases |es|
  {
    if es == [] then Some(s)
    else
      match Next(s, es[0])
      case None => None
      case Some(t) => Run(t, es[1..])
  }

  /** Sockets become ready only while a query is outstanding on them. */
  ghost predicate Asked(s: Pool, es: seq<Event>)
    decreases |es|
  {
    es != [] ==>
      && (es[0].Ready? ==> es[0].sock in s.busy)
      && (Next(s, es[0]).Some? ==> Asked(Next(s, es[0]).value, es[1..]))
  }

  /** Over all runs: no handler fails if and only if sockets only become ready while a query is
      outstanding on them, and while none fails the invariant holds. */
  lemma {:induction false} RunKeeps(s: Pool, all: set<int>, es: seq<Event>)
    requires Inv(s, all)
    ensures Run(s, es).Some? <==> Asked(s, es)
    ensures Run(s, es).Some? ==> Inv(Run(s, es).value, all)
    decreases |es|
  {
    hide Inv, Arrive, Complete;
    if es != [] {
      match es[0] {
        case Receive(fd, sql) => ReceiveKeeps(s, all, fd, sql);
        case Ready(sock) => ReadyKeeps(s, all, sock);
      }
      if Next(s, es[0]).Some? { RunKeeps(Next(s, es[0]).value, all, es[1..]); }
    }
  }

  // ------------------------------------------------- what is accepted, from the events

  /** The requests, as client and query, that are accepted when `load` are waiting or being worked on
      and there is room for `room` such, and the clients that are refused. */
  function Accepted(load: int, room: nat, es: seq<Event>): seq<(int, string)>
    decreases |es|
  {
    if es == [] then []
    else
      match es[0]
      case Receive(fd, sql) =>
        if load < room then [(fd, sql)] + Accepted(load + 1, room, es[1..]) else Accepted(load, room, es[1..])
      case Ready(_) => Accepted(load - 1, room, es[1..])
  }

  function Refused(load: int, room: nat, es: seq<Event>): seq<int>
    decreases |es|
  {
    if es == [] then []
    else
      match es[0]
      case Receive(fd, _) =>
        if load < room then Refused(load + 1, room, es[1..]) else [fd] + Refused(load, room, es[1..])
      case Ready(_) => Refused(load - 1, room, es[1..])
  }

  function Load(s: Pool): nat {
    |s.busy| + |s.wait|
  }

  function Asking(jobs: seq<Job>): (r: seq<(int, string)>)
    ensures |r| == |jobs|
  {
    seq(|jobs|, k requires 0 <= k < |jobs| => (jobs[k].fd, jobs[k].sql))
  }

  lemma AskingSplit(a: seq<Job>, b: seq<Job>)
    ensures Asking(a + b) == Asking(a) + Asking(b)
  {
  }

  /** One event: what it adds to the accepted and the refused, and how it changes the load. */
  lemma ReceiveLoad(s: Pool, all: set<int>, fd: int, sql: string)
    requires Inv(s, all)
    ensures var r := Arrive(s, fd, sql);
            r.Some? &&
            if Load(s) < |all| + 100 then
              r.value.accepted == s.accepted + [Job(|s.accepted|, fd, sql)] && r.value.refused == s.refused
              && Load(r.value) == Load(s) + 1
            else
              r.value.accepted == s.accepted && r.value.refused == s.refused + [fd] && Load(r.value) == Load(s)
  {
    hide Served;
    if |s.idle| != 0 {
      var db := s.idle[|s.idle| - 1];
      var job := Job(|s.accepted|, fd, sql);
      assert db.sock !in s.busy;
      assert |s.busy[db.sock := db.(fd := job.fd, job := job)]| == |s.busy| + 1;
    }
  }

  lemma ReadyLoad(s: Pool, all: set<int>, sock: int)
    requires Inv(s, all) && sock in s.busy
    ensures var r := Complete(s, sock);
            r.Some? && r.value.accepted == s.accepted && r.value.refused == s.refused && Load(r.value) == Load(s) - 1
  {
    var t := Release(s, sock);
    ReleaseKeeps(s, all, sock);
    AnswerKeeps(s, all, sock);
    assert t.busy.Keys == s.busy.Keys - {sock};
    assert |t.busy| == |t.busy.Keys| == |s.busy.Keys| - 1;
    hide Served;
    if |t.wait| > 0 {
      var job, u := t.wait[0], t.(wait := t.wait[1..]);
      var db := u.idle[|u.idle| - 1];
      assert db.sock !in u.busy;
      assert |u.busy[db.sock := db.(fd := job.fd, job := job)]| == |u.busy| + 1;
      var v := Dispatch(u, job).value;
      assert Drain(t, 1) == Drain(v, 0) == Some(v);
    }
  }

  /** Over every run: the requests accepted are, in order, those that came while fewer than one hundred
      more than the connections were waiting or being worked on; the clients of the others are refused. */
  lemma {:induction false} AcceptsInOrder(s: Pool, all: set<int>, es: seq<Event>)
    requires Inv(s, all) && Run(s, es).Some?
    ensures var t := Run(s, es).value;
            && Asking(t.accepted) == Asking(s.accepted) + Accepted(Load(s), |all| + 100, es)
            && t.refused == s.refused + Refused(Load(s), |all| + 100, es)
    decreases |es|
  {
    hide Inv, Arrive, Complete, Load;
    if es == [] {
      assert Asking(s.accepted) + [] == Asking(s.accepted) && s.refused + [] == s.refused;
    } else {
      var u := Next(s, es[0]).value;
      match es[0] {
        case Receive(fd, sql) =>
          ReceiveKeeps(s, all, fd, sql);
          ReceiveLoad(s, all, fd, sql);
          var job := Job(|s.accepted|, fd, sql);
          AskingSplit(s.accepted, [job]);
          assert Asking([job]) == [(fd, sql)];
        case Ready(sock) =>
          ReadyKeeps(s, all, sock);
          ReadyLoad(s, all, sock);
      }
      AcceptsInOrder(u, all, es[1..]);
    }
  }

  /** What a client relies on: requests leave in arrival order, none is answered twice, and
      every answer goes to the client that asked. */
  lemma AnsweredOnceToItsClient(s: Pool, all: set<int>, i: nat, j: nat)
    requires Inv(s, all) && i < |s.answers| && j < |s.answers|
    ensures s.dispatched <= s.accepted && s.accepted == s.dispatched + s.wait
    ensures s.answers[i].job in s.accepted && s.answers[i].fd == s.answers[i].job.fd
    ensures s.answers[i].job.id == s.answers[j].job.id ==> i == j
    ensures |s.accepted| == |s.answers| + |s.busy| + |s.wait|
  {
    assert Genuine(s, s.answers[i].job, s.answers[i].fd);
    assert s.accepted == s.dispatched + s.wait;
    assert s.accepted[s.answers[i].job.id] == s.answers[i].job;
  }

  /** From a pool without requests, over every run: each answer goes to the client whose request it
      answers, by the order of the requests accepted, and no request is answered twice. */
  lemma AnswersReachClients(s: Pool, all: set<int>, es: seq<Event>, i: nat, j: nat)
    requires Inv(s, all) && s.accepted == [] && Run(s, es).Some?
    requires i < |Run(s, es).value.answers| && j < |Run(s, es).value.answers|
    ensures var answers, asked := Run(s, es).value.answers, Accepted(0, |all| + 100, es);
            && answers[i].job.id < |asked| && answers[i].fd == asked[answers[i].job.id].0
            && answers[i].job.sql == asked[answers[i].job.id].1
            && (answers[i].job.id == answers[j].job.id ==> i == j)
  {
    NoLoad(s, all);
    hide Inv, Run, Load;
    var t := Run(s, es).value;
    RunKeeps(s, all, es);
    AcceptsInOrder(s, all, es);
    AnsweredOnceToItsClient(t, all, i, j);
    JobAt(t, all, i);
    assert Asking(t.accepted) == Accepted(0, |all| + 100, es);
  }

  lemma NoLoad(s: Pool, all: set<int>)
    requires Inv(s, all) && s.accepted == []
    ensures Load(s) == 0 && Asking(s.accepted) == []
  {
  }

  lemma JobAt(s: Pool, all: set<int>, i: nat)
    requires Inv(s, all) && i < |s.answers|
    ensures s.answers[i].job.id < |s.accepted| && s.accepted[s.answers[i].job.id] == s.answers[i].job
  {
    assert Genuine(s, s.answers[i].job, s.answers[i].fd);
    assert s.accepted == s.dispatched + s.wait;
  }

  // ------------------------------------------------------------------- the server

  /** The idle connections after connecting: one to each socket. */
  ghost predicate Opened(pool: seq<Conn>, socks: seq<int>, all: set<int>) {
    && |pool| == |socks| == |all| && all == (set x | x in socks)
    && forall k :: 0 <= k < |socks| ==> pool[k].sock == socks[k]
  }

  lemma OpenedNext(pool: seq<Conn>, socks: seq<int>, i: nat, all: set<int>)
    requires i < |socks| && Opened(pool, socks[..i], all)
    requires forall i, j :: 0 <= i < j < |socks| ==> socks[i] != socks[j]
    ensures Opened(pool + [Conn(socks[i], 0, Job(0, 0, ""))], socks[..i + 1], all + {socks[i]})
  {
    assert socks[..i + 1] == socks[..i] + [socks[i]];
  }

  lemma OpenedInv(pool: seq<Conn>, socks: seq<int>, all: set<int>, refused: seq<int>)
    requires Opened(pool, socks, all)
    requires forall i, j :: 0 <= i < j < |socks| ==> socks[i] != socks[j]
    ensures Inv(Pool(pool, map[], [], [], [], [], refused), all)
  {
    forall k | 0 <= k < |pool| ensures pool[k].sock in all {
      assert socks[k] in socks;
    }
  }

  class DBServer {
    var idlePool: seq<Conn>
    var busyPool: map<int, Conn>
    var waitQueue: seq<Job>
    ghost var accepted: seq<Job>
    ghost var dispatched: seq<Job>
    ghost var answers: seq<Answer>
    ghost var refused: seq<int>
    var count: nat             // requests accepted so far, for their numbers
    ghost var sockets: set<int>

    ghost function View(): Pool
      reads this
    {
      Pool(idlePool, busyPool, waitQueue, accepted, dispatched, answers, refused)
    }

    ghost predicate Valid()
      reads this
    {
      Inv(View(), sockets) && count == |accepted|
    }

    /** onStart, with the sockets that connecting gave. */
    constructor (socks: seq<int>)
      requires forall i, j :: 0 <= i < j < |socks| ==> socks[i] != socks[j]
      ensures Valid() && sockets == (set x | x in socks) && accepted == [] && |idlePool| == |socks|
    {
      hide Inv;
      ghost var all := {};
      var pool: seq<Conn> := [];
      var i := 0;
      while i < |socks|
        invariant 0 <= i <= |socks| && Opened(pool, socks[..i], all)
      {
        OpenedNext(pool, socks, i, all);
        pool, all := pool + [Conn(socks[i], 0, Job(0, 0, ""))], all + {socks[i]};
        i := i + 1;
      }
      assert socks[..i] == socks;
      OpenedInv(pool, socks, all, []);
      idlePool, busyPool, waitQueue, sockets := pool, map[], [], all;
      accepted, dispatched, answers, refused, count := [], [], [], [], 0;
    }

    method DoQuery(job: Job)
      requires idlePool != []
      modifies this`idlePool, this`busyPool, this`dispatched
      ensures Dispatch(old(View()), job) == Some(View())
      ensures var last := old(idlePool)[|old(idlePool)| - 1];
              && old(idlePool) == idlePool + [last] && dispatched == old(dispatched) + [job]
              && busyPool == old(busyPool)[last.sock := Conn(last.sock, job.fd, job)]
    {
      var db := idlePool[|idlePool| - 1];
      idlePool := idlePool[..|idlePool| - 1];
      db := db.(fd := job.fd, job := job);
      busyPool := busyPool[db.sock := db];
      dispatched := dispatched + [job];
    }

    /** A request is refused exactly if no connection is idle and one hundred requests wait. */
    method OnReceive(fd: int, sql: string)
      requires Valid()
      modifies this
      ensures Valid() && Arrive(old(View()), fd, sql) == Some(View())
      ensures if old(idlePool) == [] && |old(waitQueue)| >= 100
              then accepted == old(accepted) && refused == old(refused) + [fd]
              else accepted == old(accepted) + [Job(|old(accepted)|, fd, sql)] && refused == old(refused)
    {
      hide Inv;
      ReceiveKeeps(View(), sockets, fd, sql);
      if |idlePool| == 0 {
        if |waitQueue| < WAIT_QUEUE_MAX {
          var job := Job(count, fd, sql);
          waitQueue, accepted, count := waitQueue + [job], accepted + [job], count + 1;
        } else {
          refused := refused + [fd];
        }
      } else {
        var job := Job(count, fd, sql);
        accepted, count := accepted + [job], count + 1;
        DoQuery(job);
      }
    }

    /** False: no query is outstanding, and the handler fails at the missing connection. Otherwise the
        loop never finds the queue or the pool empty: its two array accesses are in range. */
    method OnSQLReady(sock: int) returns (ok: bool)
      requires Valid()
      modifies this
      ensures Valid() && (ok <==> old(sock in busyPool))
      ensures Complete(old(View()), sock) == if ok then Some(View()) else None
      ensures !ok ==> View() == old(View())
    {
      hide Inv, Dispatch;
      ghost var s := View();
      ReadyKeeps(s, sockets, sock);
      if sock !in busyPool { return false; }
      ok := true;
      var db := busyPool[sock];
      answers := answers + [Answer(db.job, db.fd)];
      idlePool := idlePool + [db];
      busyPool := map k | k in busyPool && k != sock :: busyPool[k];
      assert View() == Release(s, sock);
      if |waitQueue| > 0 {
        var n := |idlePool|;
        var i := 0;
        while i < n
          invariant 0 <= i <= n && sockets == old(sockets) && accepted == old(accepted) && count == old(count)
          invariant Drain(Release(s, sock), n) == Drain(View(), n - i)
        {
          CanDrain(View(), n - i);
          var req := waitQueue[0];
          waitQueue := waitQueue[1..];
          DoQuery(req);
          i := i + 1;
        }
      }
    }
  }

  lemma CanDrain(s: Pool, n: nat)
    requires n > 0 && Drain(s, n).Some?
    ensures s.wait != [] && s.idle != []
    ensures Dispatch(s.(wait := s.wait[1..]), s.wait[0]).Some?
    ensures Drain(s, n) == Drain(Dispatch(s.(wait := s.wait[1..]), s.wait[0]).value, n - 1)
  {
  }
}
