/**
  * Timers with callbacks that add and clear timers, their own included: the id map and the
  * callback records of swoole_timer.c over the scheduler of network/Timer.c. A callback is
  * everything that happens between `Begin` and `End`.
  */
module Timers {
  import opened Options
  import H = Heap

  const MAX_MS: int := 86400000

  /** swTimer_node. */
  datatype Timer = Timer(id: int, exec: int, interval: nat, remove: bool)

  /** Nodes have handles, standing for their addresses. `nodes` are those in the heap, `top` its
      root. `freed` lists the callback records given back and `runs` the callbacks called. */
  datatype State = State(
    nodes: map<nat, Timer>, timerMap: map<int, nat>, top: Option<nat>,
    firing: Option<nat>, current: int, now: int,
    nextId: int, handles: nat,
    once: map<nat, bool>, freed: seq<nat>, runs: seq<nat>)

  function Initial(): State {
    State(map[], map[], None, None, -1, 0, 1, 0, map[], [], [])
  }

  // ------------------------------------------------------------------------- steps

  /** `t` is a root that the heap may have. */
  ghost predicate MayTop(nodes: map<nat, Timer>, t: Option<nat>) {
    if t.None? then nodes == map[]
    else t.value in nodes && forall h :: h in nodes ==> nodes[t.value].exec <= nodes[h].exec
  }

  /** php_swoole_add_timer and swTimer_add. */
  function Add(s: State, ms: int, tick: bool, now: int): State {
    if ms > MAX_MS || ms <= 0 then s
    else
      var h := s.handles;
      var t := Timer(s.nextId, now + ms, if tick then ms else 0, false);
      var up := s.top.None? || (s.top.value in s.nodes && s.nodes[s.top.value].exec > t.exec);
      s.(nodes := s.nodes[h := t], timerMap := s.timerMap[t.id := h], top := if up then Some(h) else s.top,
         nextId := s.nextId + 1, handles := h + 1, once := s.once[h := !tick])
  }

  /** php_swoole_del_timer: out of the map, callback record freed. Nothing if it is not in the map. */
  function Del(s: State, h: nat): State
    requires h in s.nodes
  {
    var id := s.nodes[h].id;
    if id !in s.timerMap then s
    else s.(timerMap := s.timerMap - {id}, nodes := s.nodes[h := s.nodes[h].(id := -1)], freed := s.freed + [h])
  }

  /** swoole_timer_clear. The running timer is only marked. */
  function Clear(s: State, id: int, top: Option<nat>): State {
    if id !in s.timerMap || s.timerMap[id] !in s.nodes then s
    else
      var h := s.timerMap[id];
      if s.nodes[h].id == s.current then s.(nodes := s.nodes[h := s.nodes[h].(remove := true)])
      else
        var t := Del(s, h);
        t.(nodes := t.nodes - {h}, top := if s.top == Some(h) then top else s.top)
  }

  /** One round of swTimer_select up to the callback. */
  function Begin(s: State, now: int): State
    requires s.top.Some? && s.top.value in s.nodes
  {
    var h := s.top.value;
    s.(firing := Some(h), current := s.nodes[h].id, now := now, runs := s.runs + [h])
  }

  function NextExec(t: Timer, now: int, after: int): int {
    if after <= 0 then now + t.interval
    else if t.exec + t.interval < after then after + t.interval
    else t.exec + t.interval
  }

  /** The rest of the round: a tick that was not cleared is put off, everything else is deleted
      and the root of the heap is popped, whatever it is. */
  function End(s: State, after: int, top: Option<nat>): State
    requires s.firing.Some? && s.firing.value in s.nodes && s.top.Some?
  {
    var h := s.firing.value;
    var t := s.(firing := None, current := -1);
    var node := t.nodes[h];
    if node.interval > 0 && !node.remove then
      t.(nodes := t.nodes[h := node.(exec := NextExec(node, s.now, after))], top := top)
    else
      var u := Del(t, h);
      u.(nodes := u.nodes - {u.top.value}, top := top)
  }

  datatype Step =
    | AddStep(ms: int, tick: bool, now: int)
    | ClearStep(id: int, top: Option<nat>)
    | BeginStep(now: int)
    | EndStep(after: int, top: Option<nat>)

  /** The timer whose callback is done is still the root of the heap, or it is a tick that was not
      cleared and so stays on it. */
  predicate Settles(s: State) {
    && s.firing.Some? && s.firing.value in s.nodes
    && (s.top == s.firing || (s.nodes[s.firing.value].interval > 0 && !s.nodes[s.firing.value].remove))
  }

  /** When a step can happen: callbacks do not nest, only a timer that is due is called, and the heap
      has a proper root afterwards. */
  ghost predicate Enabled(s: State, e: Step) {
    match e
    case AddStep(_, _, _) => true
    case ClearStep(id, top) => MayTop(Clear(s, id, top).nodes, Clear(s, id, top).top)
    case BeginStep(now) =>
      s.firing.None? && s.top.Some? && s.top.value in s.nodes && s.nodes[s.top.value].exec <= now
    case EndStep(after, top) =>
      && s.firing.Some? && s.firing.value in s.nodes && s.top.Some?
      && MayTop(End(s, after, top).nodes, top)
  }

  ghost function Next(s: State, e: Step): State
    requires Enabled(s, e)
  {
    match e
    case AddStep(ms, tick, now) => Add(s, ms, tick, now)
    case ClearStep(id, top) => Clear(s, id, top)
    case BeginStep(now) => Begin(s, now)
    case EndStep(after, top) => End(s, after, top)
  }

  // ---------------------------------------------------------------------- invariant

  /** The map holds exactly the timers that have not been deleted. */
  ghost predicate Mapped(s: State) {
    && (forall id :: id in s.timerMap ==> s.timerMap[id] in s.nodes && s.nodes[s.timerMap[id]].id == id)
    && (forall h :: h in s.nodes ==> s.nodes[h].id in s.timerMap && s.timerMap[s.nodes[h].id] == h)
    && (forall h :: h in s.nodes ==> 1 <= s.nodes[h].id < s.nextId)
  }

  /** Every callback record is freed once, when its timer is deleted, and not before. */
  ghost predicate Owned(s: State) {
    && (forall h :: h in s.nodes ==> h < s.handles)
    && (forall i :: 0 <= i < |s.freed| ==> s.freed[i] < s.handles && s.freed[i] !in s.nodes)
    && (forall i, j :: 0 <= i < j < |s.freed| ==> s.freed[i] != s.freed[j])
    && (forall h: nat :: h < s.handles ==> h in s.nodes || h in s.freed)
  }

  /** A one-shot timer that has run is running now or gone. */
  ghost predicate RunOnce(s: State) {
    && (forall h: nat :: h in s.once <==> h < s.handles)
    && (forall h :: h in s.nodes && h in s.once ==> (s.nodes[h].interval == 0 <==> s.once[h]))
    && (forall i :: 0 <= i < |s.runs| ==> s.runs[i] in s.once)
    && (forall i, j :: 0 <= i < j < |s.runs| ==> s.runs[i] == s.runs[j] ==> !s.once[s.runs[i]])
    && (forall i :: 0 <= i < |s.runs| && s.once[s.runs[i]] ==> s.runs[i] !in s.nodes || s.firing == Some(s.runs[i]))
  }

  /** During a callback its timer is on the heap; marks are only on it. */
  ghost predicate Focused(s: State) {
    && MayTop(s.nodes, s.top)
    && (forall h :: h in s.nodes && s.nodes[h].remove ==> s.firing == Some(h))
    && (if s.firing.None? then s.current == -1
        else
          && s.firing.value in s.nodes
          && s.current == s.nodes[s.firing.value].id && s.nodes[s.firing.value].exec <= s.now)
  }

  ghost predicate Inv(s: State) {
    s.nextId >= 1 && Mapped(s) && Owned(s) && RunOnce(s) && Focused(s)
  }

  // One lemma per step and part of the invariant.

  lemma AddMapped(s: State, ms: int, tick: bool, now: int)
    requires s.nextId >= 1 && Mapped(s) && s.handles !in s.nodes
    ensures Mapped(Add(s, ms, tick, now))
  {
  }

  lemma AddOwned(s: State, ms: int, tick: bool, now: int)
    requires Owned(s)
    ensures Owned(Add(s, ms, tick, now))
  {
  }

  lemma AddRunOnce(s: State, ms: int, tick: bool, now: int)
    requires Owned(s) && RunOnce(s)
    ensures RunOnce(Add(s, ms, tick, now))
  {
    hide Owned;
    if 0 < ms <= MAX_MS {
      var t := Add(s, ms, tick, now);
      forall i | 0 <= i < |t.runs| ensures t.runs[i] in t.once && t.runs[i] != s.handles {
      }
    }
  }

  lemma AddFocused(s: State, ms: int, tick: bool, now: int)
    requires Focused(s) && s.handles !in s.nodes
    ensures Focused(Add(s, ms, tick, now))
  {
  }

  lemma AddKeeps(s: State, ms: int, tick: bool, now: int)
    requires Inv(s)
    ensures Inv(Add(s, ms, tick, now))
  {
    hide Mapped, RunOnce, Focused;
    assert s.handles !in s.nodes;
    AddMapped(s, ms, tick, now);
    AddOwned(s, ms, tick, now);
    AddRunOnce(s, ms, tick, now);
    AddFocused(s, ms, tick, now);
  }

  lemma BeginKeeps(s: State, now: int)
    requires Inv(s) && Enabled(s, BeginStep(now))
    ensures Inv(Begin(s, now))
  {
    var t := Begin(s, now);
    assert RunOnce(t);
  }

  /** A timer deleted and off the heap. */
  function Gone(s: State, h: nat): State
    requires h in s.nodes
  {
    s.(timerMap := s.timerMap - {s.nodes[h].id}, nodes := s.nodes - {h}, freed := s.freed + [h])
  }

  lemma GoneMapped(s: State, h: nat)
    requires Mapped(s) && h in s.nodes
    ensures Mapped(Gone(s, h))
  {
  }

  lemma GoneOwned(s: State, h: nat)
    requires Owned(s) && h in s.nodes
    ensures Owned(Gone(s, h))
  {
    var t := Gone(s, h);
    assert forall g :: g in t.freed <==> g in s.freed || g == h;
  }

  lemma GoneRunOnce(s: State, h: nat, firing: Option<nat>)
    requires RunOnce(s) && h in s.nodes && (firing == s.firing || (s.firing == Some(h) && firing == None))
    ensures RunOnce(Gone(s, h).(firing := firing))
  {
  }

  lemma ClearIsGone(s: State, id: int, top: Option<nat>)
    requires Mapped(s) && id in s.timerMap && id != s.current
    ensures var h := s.timerMap[id];
            h in s.nodes && Clear(s, id, top) == Gone(s, h).(top := if s.top == Some(h) then top else s.top)
  {
    var h := s.timerMap[id];
    assert s.nodes[h := s.nodes[h].(id := -1)] - {h} == s.nodes - {h};
  }

  lemma MarkKeeps(s: State, h: nat)
    requires Inv(s) && s.firing == Some(h)
    ensures Inv(s.(nodes := s.nodes[h := s.nodes[h].(remove := true)]))
  {
    var t := s.(nodes := s.nodes[h := s.nodes[h].(remove := true)]);
    assert Mapped(t) by { hide RunOnce, Owned; }
    assert Owned(t) by { hide RunOnce, Mapped; }
    assert RunOnce(t) by { hide Mapped, Owned; }
    assert Focused(t) by { hide RunOnce, Owned; }
  }

  lemma ClearKeeps(s: State, id: int, top: Option<nat>)
    requires Inv(s) && Enabled(s, ClearStep(id, top))
    ensures Inv(Clear(s, id, top))
  {
    if id in s.timerMap {
      var h := s.timerMap[id];
      if id == s.current {
        CurrentIsFiring(s, id);
        MarkKeeps(s, h);
      } else {
        ClearIsGone(s, id, top);
        GoneMapped(s, h);
        GoneOwned(s, h);
        GoneRunOnce(s, h, s.firing);
        ClearFocused(s, id, top);
        Unfocused(Gone(s, h), Clear(s, id, top));
      }
    }
  }

  lemma CurrentIsFiring(s: State, id: int)
    requires Mapped(s) && Focused(s) && id in s.timerMap && id == s.current
    ensures s.firing == Some(s.timerMap[id])
  {
  }

  lemma ClearFocused(s: State, id: int, top: Option<nat>)
    requires Mapped(s) && Focused(s) && id in s.timerMap && id != s.current
    requires MayTop(Clear(s, id, top).nodes, Clear(s, id, top).top)
    ensures Focused(Clear(s, id, top))
  {
    ClearIsGone(s, id, top);
  }

  /** The parts of the invariant that do not look at the root, the callback or the clock. */
  lemma Unfocused(s: State, t: State)
    requires Mapped(s) && Owned(s) && RunOnce(s.(firing := t.firing))
    requires t == s.(top := t.top, firing := t.firing, current := t.current, now := t.now)
    ensures Mapped(t) && Owned(t) && RunOnce(t)
  {
    assert RunOnce(t) by { hide Mapped, Owned; }
  }

  lemma EndIsGone(s: State, after: int, top: Option<nat>)
    requires Mapped(s) && Focused(s) && s.firing.Some? && s.firing.value in s.nodes && s.top == s.firing
    ensures var h := s.firing.value;
            s.nodes[h].interval == 0 || s.nodes[h].remove ==>
              End(s, after, top) == Gone(s, h).(firing := None, current := -1, top := top)
  {
    var h := s.firing.value;
    assert s.nodes[h := s.nodes[h].(id := -1)] - {h} == s.nodes - {h};
  }

  lemma EndFocused(s: State, t: State)
    requires Focused(s) && s.firing.Some? && MayTop(t.nodes, t.top) && t.firing == None && t.current == -1
    requires forall g :: g in t.nodes ==> g in s.nodes && (g != s.firing.value ==> t.nodes[g] == s.nodes[g])
    requires s.firing.value in t.nodes ==> !t.nodes[s.firing.value].remove
    ensures Focused(t)
  {
  }

  lemma PutOffKeeps(s: State, t: State, h: nat, exec: int)
    requires Mapped(s) && Owned(s) && RunOnce(s) && s.firing == Some(h) && h in s.nodes && s.nodes[h].interval > 0
    requires t == s.(firing := None, current := -1, nodes := s.nodes[h := s.nodes[h].(exec := exec)], top := t.top)
    ensures Mapped(t) && Owned(t) && RunOnce(t)
  {
    assert Mapped(t) by { hide RunOnce, Owned; }
    assert Owned(t) by { hide RunOnce, Mapped; }
    assert RunOnce(t) by { hide Mapped, Owned; }
  }

  lemma EndKeeps(s: State, after: int, top: Option<nat>)
    requires Inv(s) && Enabled(s, EndStep(after, top)) && Settles(s)
    ensures Inv(End(s, after, top))
  {
    hide Mapped, Owned, RunOnce, Focused, MayTop;
    var h, t := s.firing.value, End(s, after, top);
    var node := s.nodes[h];
    if node.interval > 0 && !node.remove {
      PutOffKeeps(s, t, h, NextExec(node, s.now, after));
    } else {
      EndIsGone(s, after, top);
      GoneMapped(s, h);
      GoneOwned(s, h);
      GoneRunOnce(s, h, None);
      Unfocused(Gone(s, h), t);
    }
    EndFocused(s, t);
  }

  lemma NextKeeps(s: State, e: Step)
    requires Inv(s) && Enabled(s, e) && (e.EndStep? ==> Settles(s))
    ensures Inv(Next(s, e))
  {
    hide Inv, Add, Clear, Begin, End, Settles;
    match e
    case AddStep(ms, tick, now) => AddKeeps(s, ms, tick, now);
    case ClearStep(id, top) => ClearKeeps(s, id, top);
    case BeginStep(now) => BeginKeeps(s, now);
    case EndStep(after, top) => EndKeeps(s, after, top);
  }

  lemma InitialInv()
    ensures Inv(Initial())
  {
  }

  /** After a callback the invariant holds if and only if the timer is still the root, or a tick that
      stays. Otherwise another timer is popped in its place, and it is left on the heap with its
      callback record freed. */
  lemma EndKeepsIff(s: State, after: int, top: Option<nat>)
    requires Inv(s) && s.firing.Some? && s.top.Some? && s.firing.value in s.nodes
             && MayTop(End(s, after, top).nodes, top)
    ensures Inv(End(s, after, top)) <==> Settles(s)
    ensures !Settles(s) ==>
              var u := End(s, after, top);
              s.top.value !in u.nodes && s.firing.value in u.nodes && s.firing.value in u.freed
  {
    if Settles(s) {
      EndKeeps(s, after, top);
    } else {
      hide RunOnce, MayTop;
      var h, u := s.firing.value, End(s, after, top);
      assert s.timerMap[s.nodes[h].id] == h;
      assert u.nodes[h].id == -1;
      assert !Mapped(u);
    }
  }

  /** A timer added in a callback overtakes the running one exactly if it is due before the root. It
      then costs the running timer its place if and only if that is a one-shot, or a tick cleared in
      this callback. */
  lemma AddedEarlierIsLost(s: State, ms: int, tick: bool, now: int)
    requires Inv(s) && s.firing.Some? && s.top == s.firing && 0 < ms <= MAX_MS
    ensures var t, f := Add(s, ms, tick, now), s.nodes[s.firing.value];
            && (t.top != t.firing <==> now + ms < f.exec)
            && (Settles(t) <==> now + ms >= f.exec || (f.interval > 0 && !f.remove))
  {
    hide RunOnce, Owned;
    HandleIsNew(s);
    var t := Add(s, ms, tick, now);
    assert t.nodes[s.firing.value] == s.nodes[s.firing.value];
  }

  /** The timer in its callback, if any, is the root. */
  predicate AtRoot(s: State) {
    s.firing.Some? ==> s.top == s.firing
  }

  /** No timer is added that is due before the one in its callback. */
  predicate InTime(s: State, e: Step) {
    e.AddStep? && 0 < e.ms <= MAX_MS && s.firing.Some? && s.firing.value in s.nodes ==>
      e.now + e.ms >= s.nodes[s.firing.value].exec
  }

  lemma NotOvertaken(s: State, e: Step)
    requires Inv(s) && Enabled(s, e) && AtRoot(s) && InTime(s, e)
    ensures AtRoot(Next(s, e)) && (e.EndStep? ==> Settles(s))
  {
    hide RunOnce, Owned;
    if e.ClearStep? && e.id in s.timerMap && e.id != s.current { ClearIsGone(s, e.id, e.top); }
  }

  // --------------------------------------------------------------------------- runs

  ghost predicate Behaviour(s: State, es: seq<Step>)
    decreases |es|
  {
    es != [] ==> Enabled(s, es[0]) && Behaviour(Next(s, es[0]), es[1..])
  }

  ghost function Run(s: State, es: seq<Step>): State
    requires Behaviour(s, es)
    decreases |es|
  {
    if es == [] then s else Run(Next(s, es[0]), es[1..])
  }

  ghost predicate Timely(s: State, es: seq<Step>)
    requires Behaviour(s, es)
    decreases |es|
  {
    es != [] ==> InTime(s, es[0]) && Timely(Next(s, es[0]), es[1..])
  }

  /** Whatever callbacks do, as long as they add no timer that is due before their own: the invariant
      holds after every run, and no timer is overtaken. */
  lemma {:induction false} RunKeeps(s: State, es: seq<Step>)
    requires Inv(s) && AtRoot(s) && Behaviour(s, es) && Timely(s, es)
    ensures Inv(Run(s, es)) && AtRoot(Run(s, es))
    decreases |es|
  {
    hide Inv, Next, Enabled, AtRoot, InTime, Settles;
    if es != [] {
      NotOvertaken(s, es[0]);
      NextKeeps(s, es[0]);
      RunKeeps(Next(s, es[0]), es[1..]);
    }
  }

  /** Every timer is added at a time not before the last callback began. */
  predicate Forward(clock: int, es: seq<Step>)
    decreases |es|
  {
    es != [] ==>
      match es[0]
      case AddStep(_, _, now) => now >= clock && Forward(clock, es[1..])
      case BeginStep(now) => Forward(now, es[1..])
      case _ => Forward(clock, es[1..])
  }

  /** So it is with every clock that does not run backwards. */
  lemma {:induction false} ForwardIsTimely(s: State, es: seq<Step>)
    requires Inv(s) && AtRoot(s) && Behaviour(s, es) && Forward(s.now, es)
    ensures Timely(s, es)
    decreases |es|
  {
    if es != [] {
      ClockStep(s, es[0], es);
      hide Inv, Next, Enabled, AtRoot, InTime, Settles, Forward;
      NotOvertaken(s, es[0]);
      NextKeeps(s, es[0]);
      ForwardIsTimely(Next(s, es[0]), es[1..]);
    }
  }

  lemma ClockStep(s: State, e: Step, es: seq<Step>)
    requires Inv(s) && Enabled(s, e) && es != [] && es[0] == e && Forward(s.now, es)
    ensures InTime(s, e) && Forward(Next(s, e).now, es[1..])
  {
    hide Mapped, Owned, RunOnce, MayTop;
  }

  /** Every callback of the run ends with its timer at the root, or a tick that stays. */
  ghost predicate Settled(s: State, es: seq<Step>)
    requires Behaviour(s, es)
    decreases |es|
  {
    es != [] ==> (es[0].EndStep? ==> Settles(s)) && Settled(Next(s, es[0]), es[1..])
  }

  ghost predicate InvAlong(s: State, es: seq<Step>)
    requires Behaviour(s, es)
    decreases |es|
  {
    Inv(s) && (es != [] ==> InvAlong(Next(s, es[0]), es[1..]))
  }

  /** The invariant holds all along a run if and only if no callback ends overtaken. */
  lemma {:induction false} RunKeepsIff(s: State, es: seq<Step>)
    requires Inv(s) && Behaviour(s, es)
    ensures InvAlong(s, es) <==> Settled(s, es)
    decreases |es|
  {
    hide Inv, Next, Enabled, Settles;
    if es != [] {
      var t := Next(s, es[0]);
      if es[0].EndStep? {
        EndStepIff(s, es[0]);
      } else {
        NextKeeps(s, es[0]);
      }
      if Inv(t) { RunKeepsIff(t, es[1..]); }
    }
  }

  lemma EndStepIff(s: State, e: Step)
    requires Inv(s) && Enabled(s, e) && e.EndStep?
    ensures Inv(Next(s, e)) <==> Settles(s)
  {
    hide Inv, Settles, End;
    EndKeepsIff(s, e.after, e.top);
  }

  /** Deleted, or running and marked. */
  ghost predicate Cleared(s: State, h: nat) {
    h in s.freed || (h in s.nodes && s.firing == Some(h) && s.nodes[h].remove)
  }

  /** A timer that is off the heap stays off it and is not called, with or without the invariant. */
  lemma OffStays(s: State, e: Step, h: nat)
    requires Enabled(s, e) && h < s.handles && h !in s.nodes
    ensures h < Next(s, e).handles && h !in Next(s, e).nodes && h !in Called(s, Next(s, e))
    ensures s.runs <= Next(s, e).runs
  {
  }

  /** The callbacks called between two states. */
  ghost function Called(s: State, t: State): seq<nat> {
    if s.runs <= t.runs then t.runs[|s.runs|..] else t.runs
  }

  lemma CalledOn(s: State, t: State, u: State)
    requires s.runs <= t.runs <= u.runs
    ensures s.runs <= u.runs && Called(s, u) == Called(s, t) + Called(t, u)
  {
  }

  lemma {:induction false} OffNeverRuns(s: State, es: seq<Step>, h: nat)
    requires Behaviour(s, es) && h < s.handles && h !in s.nodes
    ensures s.runs <= Run(s, es).runs && h !in Called(s, Run(s, es))
    decreases |es|
  {
    hide Next, Enabled;
    if es != [] {
      OffStays(s, es[0], h);
      OffNeverRuns(Next(s, es[0]), es[1..], h);
      CalledOn(s, Next(s, es[0]), Run(s, es));
    }
  }

  /** Until the callback ends, no timer is added that is due before its own. */
  ghost predicate TimelyCallback(s: State, es: seq<Step>)
    requires Behaviour(s, es)
    decreases |es|
  {
    es != [] && !es[0].EndStep? ==> InTime(s, es[0]) && TimelyCallback(Next(s, es[0]), es[1..])
  }

  /** A timer that was cleared from outside is never called again, whatever follows. One that was
      cleared in its own callback is never called again, unless that callback adds a timer that is
      due before it. */
  lemma {:induction false} ClearedNeverRuns(s: State, es: seq<Step>, h: nat)
    requires Inv(s) && Behaviour(s, es) && Cleared(s, h)
    requires h in s.nodes ==> AtRoot(s) && TimelyCallback(s, es)
    ensures s.runs <= Run(s, es).runs && h !in Called(s, Run(s, es))
    decreases |es|
  {
    hide Inv, Next, Enabled, AtRoot, InTime, Settles, Cleared, Called;
    ClearedIs(s, h);
    if h !in s.nodes {
      OffNeverRuns(s, es, h);
    } else if es != [] {
      var t := Next(s, es[0]);
      MarkedOn(s, es[0], h);
      if es[0].EndStep? {
        OffNeverRuns(t, es[1..], h);
      } else {
        NextKeeps(s, es[0]);
        ClearedNeverRuns(t, es[1..], h);
      }
      CalledOn(s, t, Run(s, es));
    } else {
      NoneCalled(s);
    }
  }

  lemma NoneCalled(s: State)
    ensures Called(s, s) == []
  {
  }

  lemma ClearedIs(s: State, h: nat)
    requires Inv(s) && Cleared(s, h)
    ensures h < s.handles && (h in s.nodes <==> h !in s.freed)
    ensures h in s.nodes ==> s.firing == Some(h) && s.nodes[h].remove
  {
    hide Mapped, RunOnce, Focused;
  }

  /** A marked timer, until its callback ends. */
  lemma MarkedOn(s: State, e: Step, h: nat)
    requires Inv(s) && Enabled(s, e) && AtRoot(s) && h in s.nodes && s.firing == Some(h) && s.nodes[h].remove
    requires e.EndStep? || InTime(s, e)
    ensures var t := Next(s, e);
            && s.runs == t.runs && Called(s, t) == [] && h < t.handles
            && (if e.EndStep? then h !in t.nodes else AtRoot(t) && h in t.nodes && Cleared(t, h))
  {
    NotOvertaken(s, e);
    hide RunOnce;
    if e.EndStep? { EndIsGone(s, e.after, e.top); }
    if e.ClearStep? && e.id in s.timerMap && e.id != s.current { ClearIsGone(s, e.id, e.top); }
  }

  lemma RunCons(s: State, e: Step, es: seq<Step>)
    requires Enabled(s, e) && Behaviour(Next(s, e), es)
    ensures Behaviour(s, [e] + es) && Run(s, [e] + es) == Run(Next(s, e), es)
  {
    hide Enabled, Next;
    assert ([e] + es)[1..] == es;
  }

  /** The tick is running, has cleared itself, and has been overtaken. */
  const OVERTAKEN: State :=
    State(map[0 := Timer(1, 10, 10, true), 1 := Timer(2, 1, 0, false)], map[1 := 0, 2 := 1], Some(1), Some(0), 1, 10,
          3, 2, map[0 := false, 1 := true], [], [0])

  lemma Overtakes()
    ensures var es := [AddStep(10, true, 0), BeginStep(10), ClearStep(1, None), AddStep(1, false, 0)];
            Behaviour(Initial(), es) && Run(Initial(), es) == OVERTAKEN
  {
    var e1, e2, e3, e4 := AddStep(10, true, 0), BeginStep(10), ClearStep(1, None), AddStep(1, false, 0);
    var s1 := Next(Initial(), e1);
    var s2 := Next(s1, e2);
    var s3 := Next(s2, e3);
    assert Next(s3, e4) == OVERTAKEN;
    hide Enabled, Next;
    RunCons(s3, e4, []);
    RunCons(s2, e3, [e4]);
    RunCons(s1, e2, [e3, e4]);
    RunCons(Initial(), e1, [e2, e3, e4]);
  }

  lemma RunsAgain()
    ensures var es := [EndStep(10, Some(0)), BeginStep(10)];
            Behaviour(OVERTAKEN, es) && Run(OVERTAKEN, es).runs == [0, 0]
  {
    var e1, e2 := EndStep(10, Some(0)), BeginStep(10);
    assert End(OVERTAKEN, 10, Some(0)).nodes == map[0 := Timer(-1, 10, 10, true)];
    var s1 := Next(OVERTAKEN, e1);
    assert Next(s1, e2).runs == [0, 0];
    hide Enabled, Next;
    RunCons(s1, e2, []);
    RunCons(OVERTAKEN, e1, [e2]);
  }

  lemma {:induction false} RunOn(s: State, es: seq<Step>, fs: seq<Step>)
    requires Behaviour(s, es) && Behaviour(Run(s, es), fs)
    ensures Behaviour(s, es + fs) && Run(s, es + fs) == Run(Run(s, es), fs)
    decreases |es|
  {
    hide Enabled, Next;
    if es == [] {
      assert [] + fs == fs;
    } else {
      RunOn(Next(s, es[0]), es[1..], fs);
      assert (es + fs)[1..] == es[1..] + fs;
    }
  }

  /** The failing input: a tick clears itself in its callback and adds, with a clock that was put back,
      a timer that is due before it. The tick is called again. */
  lemma ClearedTickRunsAgain()
    ensures var es := [AddStep(10, true, 0), BeginStep(10), ClearStep(1, None), AddStep(1, false, 0)]
                      + [EndStep(10, Some(0)), BeginStep(10)];
            Behaviour(Initial(), es) && Run(Initial(), es).runs == [0, 0]
  {
    hide Behaviour, Run;
    Overtakes();
    RunsAgain();
    RunOn(Initial(), [AddStep(10, true, 0), BeginStep(10), ClearStep(1, None), AddStep(1, false, 0)],
          [EndStep(10, Some(0)), BeginStep(10)]);
  }

  /** A successful clear of `id` clears its timer. */
  lemma ClearClears(s: State, id: int, top: Option<nat>)
    requires Inv(s) && id in s.timerMap
    ensures Cleared(Clear(s, id, top), s.timerMap[id])
  {
    hide RunOnce, Owned;
    if id == s.current { CurrentIsFiring(s, id); } else { ClearIsGone(s, id, top); }
  }

  // ------------------------------------------------------------------- when timers are due

  /** When a tick that was not cleared is due next: one interval after it was, but if its callback ended
      later than that, one interval after the end, and if the clock is not positive, one interval after
      the round began. No other timer is touched. */
  lemma TickPutOff(s: State, after: int, top: Option<nat>)
    requires s.firing.Some? && s.firing.value in s.nodes && s.top.Some?
    requires s.nodes[s.firing.value].interval > 0 && !s.nodes[s.firing.value].remove
    ensures var h, u := s.firing.value, End(s, after, top);
            var t := s.nodes[h];
            && u.nodes.Keys == s.nodes.Keys && (forall g <- s.nodes :: g != h ==> u.nodes[g] == s.nodes[g])
            && u.nodes[h].interval == t.interval && !u.nodes[h].remove && u.nodes[h].id == t.id
            && (0 < after <= t.exec + t.interval ==> u.nodes[h].exec == t.exec + t.interval)
            && (after > 0 && after > t.exec + t.interval ==> u.nodes[h].exec == after + t.interval)
            && (after <= 0 ==> u.nodes[h].exec == s.now + t.interval)
  {
  }

  /** A callback of `h` ends with this step. */
  predicate EndsRound(s: State, e: Step, h: nat) {
    e.EndStep? && s.firing == Some(h)
  }

  /** How many callbacks of `h` end in the run. */
  ghost function Rounds(s: State, es: seq<Step>, h: nat): nat
    requires Behaviour(s, es)
    decreases |es|
  {
    if es == [] then 0
    else (if EndsRound(s, es[0], h) then 1 else 0) + Rounds(Next(s, es[0]), es[1..], h)
  }

  /** Every callback of `h`, first due at `due` and then every `m`, ends before it is due again. */
  ghost predicate Prompt(s: State, es: seq<Step>, h: nat, due: int, m: nat)
    requires Behaviour(s, es)
    decreases |es|
  {
    es != [] ==>
      if EndsRound(s, es[0], h) then 0 < es[0].after <= due + m && Prompt(Next(s, es[0]), es[1..], h, due + m, m)
      else Prompt(Next(s, es[0]), es[1..], h, due, m)
  }

  /** A timer on the heap that is not marked was there before, with the same interval, and with the
      same due time but at the end of its own callback. */
  lemma StillThere(s: State, e: Step, h: nat)
    requires Enabled(s, e) && h < s.handles && h in Next(s, e).nodes && !Next(s, e).nodes[h].remove
    ensures h in s.nodes && !s.nodes[h].remove && Next(s, e).nodes[h].interval == s.nodes[h].interval
    ensures h < Next(s, e).handles
    ensures !EndsRound(s, e, h) || s.nodes[h].interval == 0 ==> Next(s, e).nodes[h].exec == s.nodes[h].exec
    ensures EndsRound(s, e, h) && s.nodes[h].interval > 0 && 0 < e.after <= s.nodes[h].exec + s.nodes[h].interval ==>
              Next(s, e).nodes[h].exec == s.nodes[h].exec + s.nodes[h].interval
  {
  }

  lemma {:induction false} ThereAllAlong(s: State, es: seq<Step>, h: nat)
    requires Behaviour(s, es) && h < s.handles && h in Run(s, es).nodes && !Run(s, es).nodes[h].remove
    ensures h in s.nodes && !s.nodes[h].remove && Run(s, es).nodes[h].interval == s.nodes[h].interval
    ensures s.nodes[h].interval == 0 ==> Run(s, es).nodes[h].exec == s.nodes[h].exec
    decreases |es|
  {
    hide Enabled, Next;
    if es != [] {
      HandlesGrow(s, es[0]);
      ThereAllAlong(Next(s, es[0]), es[1..], h);
      StillThere(s, es[0], h);
    }
  }

  lemma HandlesGrow(s: State, e: Step)
    requires Enabled(s, e)
    ensures s.handles <= Next(s, e).handles
  {
  }

  /** Over every run: a tick that is not cleared and whose callbacks are prompt is due again exactly one
      interval later for each of them. */
  lemma {:induction false} TicksOnTime(s: State, es: seq<Step>, h: nat)
    requires Behaviour(s, es) && h in s.nodes && h < s.handles && s.nodes[h].interval > 0
    requires h in Run(s, es).nodes && !Run(s, es).nodes[h].remove
    requires Prompt(s, es, h, s.nodes[h].exec, s.nodes[h].interval)
    ensures Run(s, es).nodes[h].exec == s.nodes[h].exec + Rounds(s, es, h) * s.nodes[h].interval
    decreases |es|
  {
    hide Enabled, Next;
    if es != [] {
      var t := Next(s, es[0]);
      HandlesGrow(s, es[0]);
      ThereAllAlong(t, es[1..], h);
      StillThere(s, es[0], h);
      TicksOnTime(t, es[1..], h);
      var n, m := Rounds(t, es[1..], h), s.nodes[h].interval;
      assert (n + 1) * m == n * m + m;
    }
  }

  /** A timer from the moment it is added, whatever else is added, cleared and called: a tick whose
      callbacks are prompt is due for the (k + 1)th time k + 1 intervals after it was added, and a
      one-shot when it was asked for. */
  lemma AddedDue(s: State, ms: int, tick: bool, now: int, es: seq<Step>)
    requires 0 < ms <= 86400000
    requires Behaviour(Add(s, ms, tick, now), es)
    requires var t := Run(Add(s, ms, tick, now), es); s.handles in t.nodes && !t.nodes[s.handles].remove
    requires tick ==> Prompt(Add(s, ms, tick, now), es, s.handles, now + ms, ms)
    ensures var t, h := Run(Add(s, ms, tick, now), es), s.handles;
            t.nodes[h].exec == if tick then now + (Rounds(Add(s, ms, tick, now), es, h) + 1) * ms else now + ms
  {
    hide Behaviour, Run, Prompt, Rounds;
    var a, h := Add(s, ms, tick, now), s.handles;
    assert a.nodes[h].exec == now + ms && a.nodes[h].interval == if tick then ms else 0;
    ThereAllAlong(a, es, h);
    if tick {
      TicksOnTime(a, es, h);
      var k: nat := Rounds(a, es, h);
      assert (k + 1) * ms == k * ms + ms;
    }
  }

  // -------------------------------------------------------------------- the scheduler

  /** The heap holds the nodes under their due times, each once. */
  ghost predicate Mirrors(c: multiset<H.Node>, nodes: map<nat, Timer>) {
    forall n :: c[n] == if n.id in nodes && nodes[n.id].exec == n.priority then 1 else 0
  }

  lemma AddIs(s: State, ms: int, tick: bool, now: int, top: Option<nat>)
    requires 0 < ms <= MAX_MS && (s.top.Some? ==> s.top.value in s.nodes)
    requires top == if s.top.None? || s.nodes[s.top.value].exec > now + ms then Some(s.handles) else s.top
    ensures var h, t := s.handles, Timer(s.nextId, now + ms, if tick then ms else 0, false);
            Add(s, ms, tick, now) ==
            s.(nodes := s.nodes[h := t], timerMap := s.timerMap[t.id := h], top := top,
               nextId := s.nextId + 1, handles := h + 1, once := s.once[h := !tick])
  {
  }

  lemma NothingAdded(s: State, ms: int, tick: bool, now: int)
    requires ms > MAX_MS || ms <= 0
    ensures Add(s, ms, tick, now) == s
  {
  }

  class Scheduler {
    var nodes: map<nat, Timer>
    var timerMap: map<int, nat>
    var currentId: int
    var nextId: int
    var handles: nat
    var firing: Option<nat>     // the node that swTimer_select has in hand
    var now: int
    const heap: H.MinHeap
    ghost var once: map<nat, bool>
    ghost var freed: seq<nat>
    ghost var runs: seq<nat>

    ghost function Root(): Option<nat>
      reads this, heap, heap.nodes
      requires heap.Valid()
    {
      if heap.num > 1 then Some(heap.nodes[1].id) else None
    }

    ghost function View(): State
      reads this, heap, heap.nodes
      requires heap.Valid()
    {
      State(nodes, timerMap, Root(), firing, currentId, now, nextId, handles, once, freed, runs)
    }

    ghost predicate Valid()
      reads this, heap, heap.nodes
    {
      heap.Valid() && Mirrors(heap.Contents(), nodes) && Inv(View())
    }

    constructor ()
      ensures Valid() && fresh(heap) && fresh(heap.nodes) && View() == Initial()
    {
      heap := new H.MinHeap(1024);
      nodes, timerMap, currentId, nextId, handles, firing, now := map[], map[], -1, 1, 0, None, 0;
      once, freed, runs := map[], [], [];
      new;
      InitialInv();
      assert heap.Contents() == multiset{};
    }

    /** What the heap says of a handle. */
    lemma Found(h: nat)
      requires heap.Valid() && Mirrors(heap.Contents(), nodes)
      ensures heap.Has(h) <==> h in nodes
      ensures h in nodes ==> heap.NodeOf(h) == H.Node(h, nodes[h].exec)
    {
      heap.HasIffElement(h);
      if h in nodes {
        assert heap.Contents()[H.Node(h, nodes[h].exec)] == 1;
      }
    }

    /** The root of the heap is a timer due first. */
    lemma RootIsTop()
      requires heap.Valid() && Mirrors(heap.Contents(), nodes)
      ensures MayTop(nodes, Root())
      ensures heap.num > 1 ==> heap.nodes[1].id in nodes && nodes[heap.nodes[1].id].exec == heap.nodes[1].priority
    {
      var c := heap.Contents();
      assert forall h :: h in nodes ==> c[H.Node(h, nodes[h].exec)] == 1;
      if heap.num > 1 {
        var r := heap.nodes[1];
        assert r in c by { assert heap.nodes[..heap.num][1..][0] == r; }
        forall h | h in nodes ensures r.priority <= nodes[h].exec {
          heap.TopIsLeast(H.Node(h, nodes[h].exec));
        }
      } else {
        assert heap.nodes[..heap.num][1..] == [];
        assert forall h :: h !in nodes;
      }
    }

    /** swHeap_push of a new node. */
    method Insert(h: nat, t: Timer)
      requires heap.Valid() && Mirrors(heap.Contents(), nodes) && h !in nodes
      modifies heap, heap.nodes, this`nodes
      ensures heap.Valid() && (heap.nodes == old(heap.nodes) || fresh(heap.nodes))
      ensures nodes == old(nodes)[h := t] && Mirrors(heap.Contents(), nodes)
      ensures var r := old(Root());
              && (r.Some? ==> r.value in old(nodes))
              && Root() == if r.None? || old(nodes)[r.value].exec > t.exec then Some(h) else r
    {
      hide Mirrors;
      Found(h);
      RootIsTop();
      ghost var c, was, root := heap.Contents(), nodes, Root();
      heap.Push(h, t.exec);
      nodes := nodes[h := t];
      MirrorsAdd(c, was, h, t);
      RootIsTop();
      AddRoot(was, nodes, root, h, Root());
    }

    /** swHeap_remove. */
    method Drop(h: nat)
      requires heap.Valid() && Mirrors(heap.Contents(), nodes) && h in nodes
      modifies heap, heap.nodes, this`nodes
      ensures heap.Valid() && heap.nodes == old(heap.nodes)
      ensures nodes == old(nodes) - {h} && Mirrors(heap.Contents(), nodes)
      ensures MayTop(nodes, Root()) && (old(Root()) != Some(h) ==> Root() == old(Root()))
    {
      hide Mirrors;
      Found(h);
      ghost var c, was := heap.Contents(), nodes;
      NonEmpty(h);
      heap.Remove(h);
      nodes := nodes - {h};
      MirrorsDrop(c, was, h);
      RootIsTop();
    }

    lemma NonEmpty(h: nat)
      requires heap.Valid() && heap.Has(h)
      ensures heap.num > 1
    {
    }

    /** swHeap_pop. */
    method PopRoot()
      requires heap.Valid() && Mirrors(heap.Contents(), nodes) && Root().Some?
      modifies heap, heap.nodes, this`nodes
      ensures heap.Valid() && heap.nodes == old(heap.nodes)
      ensures nodes == old(nodes) - {old(Root()).value} && Mirrors(heap.Contents(), nodes) && MayTop(nodes, Root())
    {
      hide Mirrors;
      RootIsTop();
      ghost var c, was, root := heap.Contents(), nodes, heap.nodes[1];
      var id := heap.Pop();
      nodes := nodes - {id};
      MirrorsDrop(c, was, id);
      RootIsTop();
    }

    /** swHeap_change_priority. */
    method Reschedule(h: nat, exec: int)
      requires heap.Valid() && Mirrors(heap.Contents(), nodes) && h in nodes
      modifies heap, heap.nodes, this`nodes
      ensures heap.Valid() && heap.nodes == old(heap.nodes)
      ensures nodes == old(nodes)[h := old(nodes)[h].(exec := exec)] && Mirrors(heap.Contents(), nodes)
      ensures MayTop(nodes, Root())
    {
      hide Mirrors;
      Found(h);
      ghost var c, was := heap.Contents(), nodes;
      heap.ChangePriority(h, exec);
      nodes := nodes[h := nodes[h].(exec := exec)];
      MirrorsMove(c, was, h, exec);
      RootIsTop();
    }

    /** Changes of a node that the heap does not see. */
    lemma SameMirror(was: map<nat, Timer>, h: nat)
      requires h in was && h in nodes && nodes == was[h := nodes[h]] && nodes[h].exec == was[h].exec
      requires heap.Valid() && Mirrors(heap.Contents(), was)
      ensures Mirrors(heap.Contents(), nodes)
    {
    }

    method AddTimer(ms: int, tick: bool, time: int) returns (id: int)
      requires Valid()
      modifies this, heap, heap.nodes
      ensures Valid() && View() == Add(old(View()), ms, tick, time)
              && (heap.nodes == old(heap.nodes) || fresh(heap.nodes))
      ensures id == if 0 < ms <= 86400000 then old(nextId) else -1
    {
      hide Inv, Mirrors, MayTop, Add, H.MinHeap.Valid, H.MinHeap.Contents;
      ghost var s := View();
      AddKeeps(s, ms, tick, time);
      if ms > MAX_MS || ms <= 0 {
        NothingAdded(s, ms, tick, time);
        return -1;
      }
      HandleIsNew(View());
      id := nextId;
      Insert(handles, Timer(id, time + ms, if tick then ms else 0, false));
      timerMap := timerMap[id := handles];
      once := once[handles := !tick];
      nextId, handles := nextId + 1, handles + 1;
      AddIs(s, ms, tick, time, Root());
    }

    /** php_swoole_del_timer on a node of the heap. */
    method DelTimer(h: nat)
      requires heap.Valid() && Mirrors(heap.Contents(), nodes) && h in nodes
      modifies this`timerMap, this`nodes, this`freed
      ensures heap.Valid() && Mirrors(heap.Contents(), nodes) && Root() == old(Root())
      ensures View() == Del(old(View()), h)
    {
      hide Mirrors;
      var id := nodes[h].id;
      if id !in timerMap { return; }
      timerMap := timerMap - {id};
      ghost var was := nodes;
      nodes := nodes[h := nodes[h].(id := -1)];
      SameMirror(was, h);
      freed := freed + [h];
    }

    /** swoole_timer_clear. */
    method ClearTimer(id: int) returns (ok: bool)
      requires Valid()
      modifies this, heap, heap.nodes
      ensures Valid() && View() == Clear(old(View()), id, Root()) && heap.nodes == old(heap.nodes)
      ensures ok <==> id in old(timerMap)
    {
      hide Inv, Mirrors, Mapped;
      if id !in timerMap { return false; }
      ghost var s := View();
      MapIsExact(s, id);
      var h := timerMap[id];
      if nodes[h].id == currentId {
        ClearKeepsHere(s, id, Root());
        ghost var was := nodes;
        nodes := nodes[h := nodes[h].(remove := true)];
        SameMirror(was, h);
        return true;
      }
      DelTimer(h);
      Drop(h);
      ClearKeepsHere(s, id, Root());
      return true;
    }

    /** A round of swTimer_select up to the callback; false when nothing is due. */
    method FireBegin(time: int) returns (due: bool)
      requires Valid() && firing.None?
      modifies this`firing, this`currentId, this`now, this`runs
      ensures Valid() && due == (Root().Some? && Root().value in nodes && nodes[Root().value].exec <= time)
      ensures View() == if due then Begin(old(View()), time) else old(View())
    {
      hide Inv, Mirrors;
      RootIsTop();
      if heap.num == 1 { return false; }
      var h := heap.nodes[1].id;
      if nodes[h].exec > time { return false; }
      BeginKeeps(View(), time);
      firing, currentId, now, runs := Some(h), nodes[h].id, time, runs + [h];
      return true;
    }

    /** The rest of the round, after the callback; the scheduler stays valid if and only if the
        timer is still the root or stays on the heap. */
    method FireEnd(after: int)
      requires Valid() && firing.Some?
      modifies this, heap, heap.nodes
      ensures heap.Valid() && Mirrors(heap.Contents(), nodes) && heap.nodes == old(heap.nodes)
      ensures old(View()).top.Some? && old(View()).firing.value in old(View()).nodes
      ensures View() == End(old(View()), after, Root())
      ensures Valid() <==> Settles(old(View()))
      ensures var h, t := old(firing.value), old(View()).nodes[old(firing.value)];
              t.interval > 0 && !t.remove ==>
                h in nodes && nodes[h].exec == if after <= 0 then old(now) + t.interval
                                               else if after > t.exec + t.interval then after + t.interval
                                               else t.exec + t.interval
    {
      hide Inv, Mirrors, Settles;
      ghost var s := View();
      FiringIsThere(s);
      var h := firing.value;
      firing, currentId := None, -1;
      var node := nodes[h];
      if node.interval > 0 && !node.remove {
        Reschedule(h, NextExec(node, now, after));
      } else {
        DelTimer(h);
        PopRoot();
      }
      EndKeepsIff(s, after, Root());
    }
  }

  lemma MapIsExact(s: State, id: int)
    requires Inv(s) && id in s.timerMap
    ensures s.timerMap[id] in s.nodes && s.nodes[s.timerMap[id]].id == id
  {
  }

  lemma FiringIsThere(s: State)
    requires Inv(s) && s.firing.Some?
    ensures s.firing.value in s.nodes && s.top.Some?
  {
  }

  lemma ClearKeepsHere(s: State, id: int, top: Option<nat>)
    requires Inv(s) && id in s.timerMap
    requires id != s.current ==>
               MayTop(Clear(s, id, top).nodes, top) && (s.top != Some(s.timerMap[id]) ==> top == s.top)
    ensures Inv(Clear(s, id, top))
  {
    hide Mapped, Owned, RunOnce;
    MapIsExact(s, id);
    if id == s.current {
      CurrentIsFiring(s, id);
      MarkKeeps(s, s.timerMap[id]);
    } else {
      ClearKeeps(s, id, top);
    }
  }

  lemma MirrorsDrop(c: multiset<H.Node>, nodes: map<nat, Timer>, h: nat)
    requires Mirrors(c, nodes) && h in nodes
    ensures Mirrors(c - multiset{H.Node(h, nodes[h].exec)}, nodes - {h})
  {
  }

  lemma MirrorsMove(c: multiset<H.Node>, nodes: map<nat, Timer>, h: nat, exec: int)
    requires Mirrors(c, nodes) && h in nodes
    ensures Mirrors(c - multiset{H.Node(h, nodes[h].exec)} + multiset{H.Node(h, exec)},
                    nodes[h := nodes[h].(exec := exec)])
  {
    MirrorsDrop(c, nodes, h);
    MirrorsAdd(c - multiset{H.Node(h, nodes[h].exec)}, nodes - {h}, h, nodes[h].(exec := exec));
    assert (nodes - {h})[h := nodes[h].(exec := exec)] == nodes[h := nodes[h].(exec := exec)];
  }

  lemma HandleIsNew(s: State)
    requires Inv(s)
    ensures s.handles !in s.nodes
  {
  }

  lemma MirrorsAdd(c: multiset<H.Node>, nodes: map<nat, Timer>, h: nat, t: Timer)
    requires Mirrors(c, nodes) && h !in nodes
    ensures Mirrors(c + multiset{H.Node(h, t.exec)}, nodes[h := t])
  {
  }

  /** The root after adding `h`. */
  lemma AddRoot(was: map<nat, Timer>, nodes: map<nat, Timer>, root: Option<nat>, h: nat, root': Option<nat>)
    requires h !in was && h in nodes && nodes == was[h := nodes[h]]
    requires MayTop(was, root) && MayTop(nodes, root')
    requires root.Some? && was[root.value].exec <= nodes[h].exec ==> root' == root
    ensures root' == if root.None? || was[root.value].exec > nodes[h].exec then Some(h) else root
  {
    if root.None? {
      assert root'.value in nodes;
    } else if was[root.value].exec > nodes[h].exec {
      assert nodes[root'.value].exec <= nodes[h].exec;
    }
  }
}
