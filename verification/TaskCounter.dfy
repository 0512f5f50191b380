/**
  * The server's count of waiting tasks. A worker dispatches a task and then adds one; a task worker
  * takes a task and then subtracts one. The four steps interleave freely between processes.
  */
module TaskCounter {

  const TWO_32: nat := 0x1_0000_0000

  /** `waiting` are the dispatched tasks no task worker has taken. `uncounted` are the workers that
      have dispatched but not yet added, `taken` those that have taken one but not yet subtracted. */
  datatype State = State(number: nat, waiting: multiset<int>, uncounted: set<nat>, taken: set<nat>)

  datatype Event =
    | Dispatch(w: nat, task: int, ok: bool)
    | Count(w: nat)
    | Take(w: nat, task: int)
    | Subtract(w: nat)

  function Initial(): State {
    State(0, multiset{}, {}, {})
  }

  /** What a 32-bit unsigned word holds of `n`. */
  function Word(n: int): nat {
    n % TWO_32
  }

  /** A step that its process is not ready for changes nothing. */
  function Next(s: State, e: Event): State {
    match e
    case Dispatch(w, task, ok) =>
      if ok && w !in s.uncounted then s.(waiting := s.waiting + multiset{task}, uncounted := s.uncounted + {w}) else s
    case Count(w) =>
      if w in s.uncounted then s.(number := Word(s.number + 1), uncounted := s.uncounted - {w}) else s
    case Take(w, task) =>
      if task in s.waiting && w !in s.taken then s.(waiting := s.waiting - multiset{task}, taken := s.taken + {w})
      else s
    case Subtract(w) =>
      if w in s.taken then s.(number := Word(s.number - 1), taken := s.taken - {w}) else s
  }

  function Run(s: State, es: seq<Event>): State
    decreases |es|
  {
    if es == [] then s else Run(Next(s, es[0]), es[1..])
  }

  ghost predicate Wrapped(d: int) {
    d % TWO_32 == 0
  }

  lemma WrapOnce(d: int)
    requires Wrapped(d)
    ensures Wrapped(d + TWO_32) && Wrapped(d - TWO_32)
  {
  }

  function Gap(s: State): int {
    s.number + |s.uncounted| - |s.waiting| - |s.taken|
  }

  /** The number plus the additions to come, and the waiting tasks plus the subtractions to come,
      are equal modulo 2^32. */
  ghost predicate Balanced(s: State) {
    s.number < TWO_32 && Wrapped(Gap(s))
  }

  lemma WordStep(n: nat)
    requires n < TWO_32
    ensures Word(n + 1) == if n == TWO_32 - 1 then 0 else n + 1
    ensures Word(n - 1) == if n == 0 then TWO_32 - 1 else n - 1
  {
  }

  lemma NextGap(s: State, e: Event)
    requires s.number < TWO_32
    ensures var t := Next(s, e); t.number < TWO_32 && Gap(t) - Gap(s) in {0, TWO_32, -(TWO_32 as int)}
  {
    hide Word;
    WordStep(s.number);
    var t := Next(s, e);
    match e
    case Count(w) => assert t != s ==> |t.uncounted| == |s.uncounted| - 1;
    case Subtract(w) => assert t != s ==> |t.taken| == |s.taken| - 1;
    case _ =>
  }

  lemma NextBalances(s: State, e: Event)
    requires Balanced(s)
    ensures Balanced(Next(s, e))
  {
    hide Gap, Next, Wrapped;
    NextGap(s, e);
    WrapOnce(Gap(s));
  }

  lemma {:induction false} RunBalances(s: State, es: seq<Event>)
    requires Balanced(s)
    ensures Balanced(Run(s, es))
    decreases |es|
  {
    if es != [] {
      NextBalances(s, es[0]);
      RunBalances(Next(s, es[0]), es[1..]);
    }
  }

  /** The number that can be read is the number of waiting tasks exactly when as many processes are
      between dispatch and addition as between taking and subtraction; so it is when none are. */
  lemma CountsWaiting(es: seq<Event>)
    requires var t := Run(Initial(), es); var n := 0x1_0000_0000; |t.waiting| < n && |t.taken| < n && |t.uncounted| < n
    ensures var t := Run(Initial(), es); t.number == |t.waiting| <==> |t.uncounted| == |t.taken|
  {
    assert Gap(Initial()) == 0;
    RunBalances(Initial(), es);
    hide Run, Wrapped;
    var t := Run(Initial(), es);
    Residues(t.number, |t.waiting|, |t.uncounted|, |t.taken|);
  }

  lemma Residues(a: nat, b: nat, c: nat, d: nat)
    requires a < TWO_32 && b < TWO_32 && c < TWO_32 && d < TWO_32 && Wrapped(a + c - b - d)
    ensures a == b <==> c == d
  {
    var k := (a + c - b - d) / TWO_32;
    assert a + c - b - d == TWO_32 * k;
  }

  /** In between it may be read as the largest number there is although nothing waits. */
  lemma WrapsInBetween()
    ensures var t := Run(Initial(), [Dispatch(1, 7, true), Take(2, 7), Subtract(2)]);
            t.number == 0xFFFF_FFFF && t.waiting == multiset{}
  {
    var s1 := Next(Initial(), Dispatch(1, 7, true));
    var s2 := Next(s1, Take(2, 7));
    var s3 := Next(s2, Subtract(2));
    assert s3.number == TWO_32 - 1 && s3.waiting == multiset{};
    assert Run(s3, []) == s3;
    assert Run(s2, [Subtract(2)]) == s3;
    assert Run(s1, [Take(2, 7), Subtract(2)]) == s3;
  }
}
