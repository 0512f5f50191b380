/**
  * The line diff of run-tests.php: a greedy walk over two texts, steered by a lookahead
  * score. Whatever the score says, the result is a correct edit script.
  */
module Diff {
  import opened Bytes

  type Line = string

  // ------------------------------------------------------------------ the lookahead

  /** How many lines match in a row from `i` and `j` on. */
  function Matches(a: seq<Line>, b: seq<Line>, eq: (Line, Line) -> bool, i: nat, j: nat): (k: nat)
    requires i <= |a| && j <= |b|
    ensures i + k <= |a| && j + k <= |b|
    decreases |a| - i
  {
    if i < |a| && j < |b| && eq(a[i], b[j]) then 1 + Matches(a, b, eq, i + 1, j + 1) else 0
  }

  /** count_array_diff: the matching run, and the better of skipping lines on either side with
      what is left of the step budget, half of it on the first side. */
  function Score(a: seq<Line>, b: seq<Line>, eq: (Line, Line) -> bool, i: nat, j: nat, steps: real): nat
    requires i <= |a| && j <= |b|
    decreases |a| - i + |b| - j, 1
  {
    var k := Matches(a, b, eq, i, j);
    var left := steps - k as real - 1.0;
    if left > 0.0 then
      k + Max(Skip1(a, b, eq, i + k, j + k, left / 2.0), Skip2(a, b, eq, i + k, j + k, left))
    else k
  }

  /** The best score after skipping one or more lines of `a`. */
  function Skip1(a: seq<Line>, b: seq<Line>, eq: (Line, Line) -> bool, i: nat, j: nat, st: real): nat
    requires i <= |a| && j <= |b|
    decreases |a| - i + |b| - j, 0
  {
    if i + 1 < |a| && st > 0.0
    then Max(Score(a, b, eq, i + 1, j, st - 1.0), Skip1(a, b, eq, i + 1, j, st - 1.0))
    else 0
  }

  function Skip2(a: seq<Line>, b: seq<Line>, eq: (Line, Line) -> bool, i: nat, j: nat, st: real): nat
    requires i <= |a| && j <= |b|
    decreases |a| - i + |b| - j, 0
  {
    if j + 1 < |b| && st > 0.0
    then Max(Score(a, b, eq, i, j + 1, st - 1.0), Skip2(a, b, eq, i, j + 1, st - 1.0))
    else 0
  }

  function Max(x: nat, y: nat): nat {
    if x > y then x else y
  }

  /** The lookahead as the code runs it. */
  method CountDiff(a: seq<Line>, b: seq<Line>, eq: (Line, Line) -> bool, i: nat, j: nat, steps: real)
    returns (equal: nat)
    requires i <= |a| && j <= |b|
    ensures equal == Score(a, b, eq, i, j, steps)
    decreases |a| - i + |b| - j
  {
    hide Score, Skip1, Skip2;
    var idx1, idx2, left := i, j, steps;
    equal := 0;
    while idx1 < |a| && idx2 < |b| && eq(a[idx1], b[idx2])
      invariant i <= idx1 <= |a| && j <= idx2 <= |b| && idx1 - i == idx2 - j == equal
      invariant left == steps - equal as real
      invariant Matches(a, b, eq, i, j) == equal + Matches(a, b, eq, idx1, idx2)
      decreases |a| - idx1
    {
      idx1, idx2, equal, left := idx1 + 1, idx2 + 1, equal + 1, left - 1.0;
    }
    ScoreUnfold(a, b, eq, i, j, steps);
    left := left - 1.0;
    if left > 0.0 {
      var eq1, st, ofs := 0, left / 2.0, idx1 + 1;
      ghost var goal1 := Skip1(a, b, eq, idx1, idx2, st);
      while ofs < |a| && st > 0.0
        invariant idx1 < ofs && (ofs <= |a| || ofs == idx1 + 1)
        invariant goal1 == Max(eq1, Skip1(a, b, eq, ofs - 1, idx2, st))
        decreases |a| - ofs
      {
        st := st - 1.0;
        var e := CountDiff(a, b, eq, ofs, idx2, st);
        Skip1Unfold(a, b, eq, ofs - 1, idx2, st + 1.0);
        if e > eq1 { eq1 := e; }
        ofs := ofs + 1;
      }
      Skip1Unfold(a, b, eq, ofs - 1, idx2, st);
      var eq2;
      eq2, st, ofs := 0, left, idx2 + 1;
      ghost var goal2 := Skip2(a, b, eq, idx1, idx2, st);
      while ofs < |b| && st > 0.0
        invariant idx2 < ofs && (ofs <= |b| || ofs == idx2 + 1)
        invariant goal2 == Max(eq2, Skip2(a, b, eq, idx1, ofs - 1, st))
        decreases |b| - ofs
      {
        st := st - 1.0;
        var e := CountDiff(a, b, eq, idx1, ofs, st);
        Skip2Unfold(a, b, eq, idx1, ofs - 1, st + 1.0);
        if e > eq2 { eq2 := e; }
        ofs := ofs + 1;
      }
      Skip2Unfold(a, b, eq, idx1, ofs - 1, st);
      if eq1 > eq2 {
        equal := equal + eq1;
      } else if eq2 > 0 {
        equal := equal + eq2;
      }
    }
  }

  lemma ScoreUnfold(a: seq<Line>, b: seq<Line>, eq: (Line, Line) -> bool, i: nat, j: nat, steps: real)
    requires i <= |a| && j <= |b|
    ensures var k := Matches(a, b, eq, i, j);
            var left := steps - k as real - 1.0;
            Score(a, b, eq, i, j, steps) == k +
              if left > 0.0
              then Max(Skip1(a, b, eq, i + k, j + k, left / 2.0), Skip2(a, b, eq, i + k, j + k, left))
              else 0
  {
    hide Skip1, Skip2;
  }

  lemma Skip1Unfold(a: seq<Line>, b: seq<Line>, eq: (Line, Line) -> bool, i: nat, j: nat, st: real)
    requires i <= |a| && j <= |b|
    ensures Skip1(a, b, eq, i, j, st) ==
            if i + 1 < |a| && st > 0.0
            then Max(Score(a, b, eq, i + 1, j, st - 1.0), Skip1(a, b, eq, i + 1, j, st - 1.0)) else 0
  {
    hide Score;
  }

  lemma Skip2Unfold(a: seq<Line>, b: seq<Line>, eq: (Line, Line) -> bool, i: nat, j: nat, st: real)
    requires i <= |a| && j <= |b|
    ensures Skip2(a, b, eq, i, j, st) ==
            if j + 1 < |b| && st > 0.0
            then Max(Score(a, b, eq, i, j + 1, st - 1.0), Skip2(a, b, eq, i, j + 1, st - 1.0)) else 0
  {
    hide Score;
  }

  // ------------------------------------------- the score is a lower bound for the LCS

  /** The length of the longest common subsequence of the remainders. */
  function Lcs(a: seq<Line>, b: seq<Line>, eq: (Line, Line) -> bool, i: nat, j: nat): nat
    requires i <= |a| && j <= |b|
    decreases |a| - i + |b| - j
  {
    if i == |a| || j == |b| then 0
    else
      var skip := Max(Lcs(a, b, eq, i + 1, j), Lcs(a, b, eq, i, j + 1));
      if eq(a[i], b[j]) then Max(1 + Lcs(a, b, eq, i + 1, j + 1), skip) else skip
  }

  lemma {:induction false} LcsBound(a: seq<Line>, b: seq<Line>, eq: (Line, Line) -> bool, i: nat, j: nat)
    requires i <= |a| && j <= |b|
    ensures Lcs(a, b, eq, i, j) <= |a| - i && Lcs(a, b, eq, i, j) <= |b| - j
    decreases |a| - i + |b| - j
  {
    if i < |a| && j < |b| {
      LcsBound(a, b, eq, i + 1, j);
      LcsBound(a, b, eq, i, j + 1);
      LcsBound(a, b, eq, i + 1, j + 1);
    }
  }

  lemma {:induction false} LcsAfterMatches(a: seq<Line>, b: seq<Line>, eq: (Line, Line) -> bool, i: nat, j: nat)
    requires i <= |a| && j <= |b|
    ensures var k := Matches(a, b, eq, i, j); k + Lcs(a, b, eq, i + k, j + k) <= Lcs(a, b, eq, i, j)
    decreases |a| - i
  {
    if i < |a| && j < |b| && eq(a[i], b[j]) {
      LcsAfterMatches(a, b, eq, i + 1, j + 1);
    }
  }

  lemma {:induction false} Skip1WithinLcs(
    a: seq<Line>, b: seq<Line>, eq: (Line, Line) -> bool, i: nat, j: nat, st: real)
    requires i <= |a| && j <= |b|
    ensures Skip1(a, b, eq, i, j, st) <= Lcs(a, b, eq, i, j)
    decreases |a| - i + |b| - j, 0
  {
    hide Score, Skip2;
    if i + 1 < |a| {
      ScoreWithinLcs(a, b, eq, i + 1, j, st - 1.0);
      Skip1WithinLcs(a, b, eq, i + 1, j, st - 1.0);
      LcsBound(a, b, eq, i + 1, j);
    }
  }

  lemma {:induction false} Skip2WithinLcs(
    a: seq<Line>, b: seq<Line>, eq: (Line, Line) -> bool, i: nat, j: nat, st: real)
    requires i <= |a| && j <= |b|
    ensures Skip2(a, b, eq, i, j, st) <= Lcs(a, b, eq, i, j)
    decreases |a| - i + |b| - j, 0
  {
    hide Score, Skip1;
    if j + 1 < |b| {
      ScoreWithinLcs(a, b, eq, i, j + 1, st - 1.0);
      Skip2WithinLcs(a, b, eq, i, j + 1, st - 1.0);
      LcsBound(a, b, eq, i, j + 1);
    }
  }

  /** However the budget is spent, the score is the length of some common subsequence: at most
      the longest, and so at most the shorter remainder. */
  lemma {:induction false} ScoreWithinLcs(
    a: seq<Line>, b: seq<Line>, eq: (Line, Line) -> bool, i: nat, j: nat, steps: real)
    requires i <= |a| && j <= |b|
    ensures Score(a, b, eq, i, j, steps) <= Lcs(a, b, eq, i, j)
    ensures Score(a, b, eq, i, j, steps) <= |a| - i && Score(a, b, eq, i, j, steps) <= |b| - j
    decreases |a| - i + |b| - j, 1
  {
    hide Skip1, Skip2, Lcs;
    var k := Matches(a, b, eq, i, j);
    var left := steps - k as real - 1.0;
    LcsAfterMatches(a, b, eq, i, j);
    LcsBound(a, b, eq, i, j);
    Skip1WithinLcs(a, b, eq, i + k, j + k, left / 2.0);
    Skip2WithinLcs(a, b, eq, i + k, j + k, left / 2.0);
    Skip1WithinLcs(a, b, eq, i + k, j + k, left);
    Skip2WithinLcs(a, b, eq, i + k, j + k, left);
  }

  // -------------------------------------------------------------------- edit scripts

  datatype Op = Keep | Del | Ins

  /** `script` leads from the start of both texts to line `i` of `a` and line `j` of `b`, and keeps
      only lines that match. */
  predicate Leads(script: seq<Op>, a: seq<Line>, b: seq<Line>, eq: (Line, Line) -> bool, i: nat, j: nat)
    decreases |script|
  {
    if script == [] then i == 0 && j == 0
    else
      var last, init := script[|script| - 1], script[..|script| - 1];
      match last
      case Keep => 0 < i <= |a| && 0 < j <= |b| && eq(a[i - 1], b[j - 1]) && Leads(init, a, b, eq, i - 1, j - 1)
      case Del => 0 < i <= |a| && Leads(init, a, b, eq, i - 1, j)
      case Ins => 0 < j <= |b| && Leads(init, a, b, eq, i, j - 1)
  }

  /** The lines of `a`, by index, that the script deletes, and of `b` that it inserts. */
  function Deleted(script: seq<Op>): seq<nat>
    decreases |script|
  {
    if script == [] then []
    else
      var last, init := script[|script| - 1], script[..|script| - 1];
      if last == Del then Deleted(init) + [Count(init, Ins)] else Deleted(init)
  }

  function Inserted(script: seq<Op>): seq<nat>
    decreases |script|
  {
    if script == [] then []
    else
      var last, init := script[|script| - 1], script[..|script| - 1];
      if last == Ins then Inserted(init) + [Count(init, Del)] else Inserted(init)
  }

  /** The number of steps that are not `skip`: those that move on in the other text. */
  function Count(script: seq<Op>, skip: Op): nat
    decreases |script|
  {
    if script == [] then 0
    else Count(script[..|script| - 1], skip) + if script[|script| - 1] == skip then 0 else 1
  }

  lemma {:induction false} LeadsCounts(
    script: seq<Op>, a: seq<Line>, b: seq<Line>, eq: (Line, Line) -> bool, i: nat, j: nat)
    requires Leads(script, a, b, eq, i, j)
    ensures Count(script, Ins) == i && Count(script, Del) == j && i <= |a| && j <= |b|
    decreases |script|
  {
    if script != [] {
      var last, init := script[|script| - 1], script[..|script| - 1];
      LeadsCounts(init, a, b, eq, if last == Ins then i else i - 1, if last == Del then j else j - 1);
    }
  }

  lemma ScriptStep(script: seq<Op>, op: Op, a: seq<Line>, b: seq<Line>, eq: (Line, Line) -> bool, i: nat, j: nat)
    requires Leads(script, a, b, eq, i, j)
    requires op != Ins ==> i < |a|
    requires op != Del ==> j < |b|
    requires op == Keep ==> eq(a[i], b[j])
    ensures Leads(script + [op], a, b, eq, if op == Ins then i else i + 1, if op == Del then j else j + 1)
    ensures Deleted(script + [op]) == Deleted(script) + if op == Del then [i] else []
    ensures Inserted(script + [op]) == Inserted(script) + if op == Ins then [j] else []
  {
    var all := script + [op];
    assert all[..|all| - 1] == script && all[|all| - 1] == op;
    LeadsCounts(script, a, b, eq, i, j);
  }

  /** The pairs of lines, by index, that the script keeps. */
  function Kept(script: seq<Op>): seq<(nat, nat)>
    decreases |script|
  {
    if script == [] then []
    else
      var last, init := script[|script| - 1], script[..|script| - 1];
      if last == Keep then Kept(init) + [(Count(init, Ins), Count(init, Del))] else Kept(init)
  }

  ghost predicate Increasing(ks: seq<nat>, n: nat) {
    (forall x, y :: 0 <= x < y < |ks| ==> ks[x] < ks[y]) && (forall x :: 0 <= x < |ks| ==> ks[x] < n)
  }

  /** `k` is kept as a line of the first text, or of the second. */
  ghost predicate KeptLeft(script: seq<Op>, k: nat) {
    exists m :: 0 <= m < |Kept(script)| && Kept(script)[m].0 == k
  }

  ghost predicate KeptRight(script: seq<Op>, k: nat) {
    exists m :: 0 <= m < |Kept(script)| && Kept(script)[m].1 == k
  }

  /** Pairs of matching lines below `i` and `j`, in the order of both texts. */
  ghost predicate Paired(ps: seq<(nat, nat)>, a: seq<Line>, b: seq<Line>, eq: (Line, Line) -> bool, i: nat, j: nat)
  {
    && i <= |a| && j <= |b|
    && (forall m :: 0 <= m < |ps| ==> ps[m].0 < i && ps[m].1 < j && eq(a[ps[m].0], b[ps[m].1]))
    && (forall m, n :: 0 <= m < n < |ps| ==> ps[m].0 < ps[n].0 && ps[m].1 < ps[n].1)
  }

  lemma PairedSnoc(ps: seq<(nat, nat)>, a: seq<Line>, b: seq<Line>, eq: (Line, Line) -> bool, i: nat, j: nat)
    requires Paired(ps, a, b, eq, i, j) && i < |a| && j < |b| && eq(a[i], b[j])
    ensures Paired(ps + [(i, j)], a, b, eq, i + 1, j + 1)
  {
  }

  lemma PairedWider(
    ps: seq<(nat, nat)>, a: seq<Line>, b: seq<Line>, eq: (Line, Line) -> bool, i: nat, j: nat, i': nat, j': nat)
    requires Paired(ps, a, b, eq, i, j) && i <= i' <= |a| && j <= j' <= |b|
    ensures Paired(ps, a, b, eq, i', j')
  {
  }

  /** Kept lines pair up in order under `eq`; of the first text every line is kept or deleted, of
      the second every line is kept or inserted, never both. */
  lemma {:induction false} Partition(
    script: seq<Op>, a: seq<Line>, b: seq<Line>, eq: (Line, Line) -> bool, i: nat, j: nat)
    requires Leads(script, a, b, eq, i, j)
    ensures Paired(Kept(script), a, b, eq, i, j)
    ensures Increasing(Deleted(script), i) && Increasing(Inserted(script), j)
    ensures forall k: nat :: k < i ==> (k in Deleted(script) <==> !KeptLeft(script, k))
    ensures forall k: nat :: k < j ==> (k in Inserted(script) <==> !KeptRight(script, k))
    decreases |script|
  {
    hide Leads, Paired, KeptLeft, KeptRight;
    LeadsCounts(script, a, b, eq, i, j);
    if script == [] {
      NothingKept(a, b, eq, i, j);
    } else {
      var last, init := script[|script| - 1], script[..|script| - 1];
      var i', j' := if last == Ins then i else i - 1, if last == Del then j else j - 1;
      LeadsInit(script, a, b, eq, i, j);
      LeadsCounts(init, a, b, eq, i', j');
      Partition(init, a, b, eq, i', j');
      KeptSplit(script, i', j');
      BelowKept(init, a, b, eq, i', j');
      if last == Keep {
        PairedSnoc(Kept(init), a, b, eq, i', j');
      } else {
        PairedWider(Kept(init), a, b, eq, i', j', i, j);
      }
    }
  }

  lemma NothingKept(a: seq<Line>, b: seq<Line>, eq: (Line, Line) -> bool, i: nat, j: nat)
    requires Leads([], a, b, eq, i, j)
    ensures i == 0 && j == 0 && Paired(Kept([]), a, b, eq, 0, 0)
  {
  }

  lemma BelowKept(script: seq<Op>, a: seq<Line>, b: seq<Line>, eq: (Line, Line) -> bool, i: nat, j: nat)
    requires Paired(Kept(script), a, b, eq, i, j)
    ensures !KeptLeft(script, i) && !KeptRight(script, j)
  {
  }

  lemma LeadsInit(script: seq<Op>, a: seq<Line>, b: seq<Line>, eq: (Line, Line) -> bool, i: nat, j: nat)
    requires script != [] && Leads(script, a, b, eq, i, j)
    ensures var last, init := script[|script| - 1], script[..|script| - 1];
            && (last != Ins ==> i > 0) && (last != Del ==> j > 0)
            && Leads(init, a, b, eq, if last == Ins then i else i - 1, if last == Del then j else j - 1)
            && (last == Keep ==> i <= |a| && j <= |b| && eq(a[i - 1], b[j - 1]))
  {
  }

  /** What the last step adds to the kept lines. */
  lemma KeptSplit(script: seq<Op>, i: nat, j: nat)
    requires script != []
    requires Count(script[..|script| - 1], Ins) == i && Count(script[..|script| - 1], Del) == j
    ensures var last, init := script[|script| - 1], script[..|script| - 1];
            && (forall k: nat :: KeptLeft(script, k) <==> KeptLeft(init, k) || (last == Keep && k == i))
            && (forall k: nat :: KeptRight(script, k) <==> KeptRight(init, k) || (last == Keep && k == j))
  {
    var last, init := script[|script| - 1], script[..|script| - 1];
    var ps, qs := Kept(script), Kept(init);
    if last == Keep {
      assert ps == qs + [(i, j)];
      forall k: nat ensures KeptLeft(script, k) <==> KeptLeft(init, k) || k == i {
        if KeptLeft(init, k) {
          var m :| 0 <= m < |qs| && qs[m].0 == k;
          assert ps[m].0 == k;
        }
        if k == i { assert ps[|qs|].0 == k; }
        if KeptLeft(script, k) && k != i {
          var m :| 0 <= m < |ps| && ps[m].0 == k;
          assert qs[m].0 == k;
        }
      }
      forall k: nat ensures KeptRight(script, k) <==> KeptRight(init, k) || k == j {
        if KeptRight(init, k) {
          var m :| 0 <= m < |qs| && qs[m].1 == k;
          assert ps[m].1 == k;
        }
        if k == j { assert ps[|qs|].1 == k; }
        if KeptRight(script, k) && k != j {
          var m :| 0 <= m < |ps| && ps[m].1 == k;
          assert qs[m].1 == k;
        }
      }
    }
  }

  // --------------------------------------------------------------- what the walk chooses

  /** The steps of the walk from line `i` of `a` and line `j` of `b` on, until one text ends. */
  function Choices(a: seq<Line>, b: seq<Line>, eq: (Line, Line) -> bool, i: nat, j: nat): seq<Op>
    requires i <= |a| && j <= |b|
    decreases |a| - i + |b| - j
  {
    if i == |a| || j == |b| then []
    else if eq(a[i], b[j]) then [Keep] + Choices(a, b, eq, i + 1, j + 1)
    else
      var c1, c2 := Score(a, b, eq, i + 1, j, 10.0), Score(a, b, eq, i, j + 1, 10.0);
      if c1 > c2 then [Del] + Choices(a, b, eq, i + 1, j)
      else if c2 > 0 then [Ins] + Choices(a, b, eq, i, j + 1)
      else [Del, Ins] + Choices(a, b, eq, i + 1, j + 1)
  }

  function Times(op: Op, n: nat): (r: seq<Op>)
    ensures |r| == n && forall k :: 0 <= k < n ==> r[k] == op
  {
    seq(n, _ => op)
  }

  ghost predicate MatchRun(a: seq<Line>, b: seq<Line>, eq: (Line, Line) -> bool, i: nat, j: nat, n: nat) {
    && i + n <= |a| && j + n <= |b|
    && forall x, y :: i <= x < i + n && j <= y < j + n && x - i == y - j ==> eq(a[x], b[y])
  }

  lemma RunTail(a: seq<Line>, b: seq<Line>, eq: (Line, Line) -> bool, i: nat, j: nat, n: nat)
    requires MatchRun(a, b, eq, i, j, n) && n > 0
    ensures eq(a[i], b[j]) && MatchRun(a, b, eq, i + 1, j + 1, n - 1)
  {
  }

  lemma RunWithin(a: seq<Line>, b: seq<Line>, eq: (Line, Line) -> bool, i: nat, j: nat, n: nat)
    requires MatchRun(a, b, eq, i, j, n)
    ensures i + n <= |a| && j + n <= |b|
  {
  }

  lemma KeepFirst(a: seq<Line>, b: seq<Line>, eq: (Line, Line) -> bool, i: nat, j: nat)
    requires i < |a| && j < |b| && eq(a[i], b[j])
    ensures Choices(a, b, eq, i, j) == [Keep] + Choices(a, b, eq, i + 1, j + 1)
  {
    hide Score;
  }

  lemma {:induction false} RunChoices(a: seq<Line>, b: seq<Line>, eq: (Line, Line) -> bool, i: nat, j: nat, n: nat)
    requires MatchRun(a, b, eq, i, j, n)
    ensures Choices(a, b, eq, i, j) == Times(Keep, n) + Choices(a, b, eq, i + n, j + n)
    decreases n
  {
    hide Choices, MatchRun;
    RunWithin(a, b, eq, i, j, n);
    if n == 0 {
      assert Times(Keep, 0) + Choices(a, b, eq, i, j) == Choices(a, b, eq, i, j);
    } else {
      RunTail(a, b, eq, i, j, n);
      RunChoices(a, b, eq, i + 1, j + 1, n - 1);
      KeepFirst(a, b, eq, i, j);
      assert Times(Keep, n) == [Keep] + Times(Keep, n - 1);
      Assoc([Keep], Times(Keep, n - 1), Choices(a, b, eq, i + n, j + n));
    }
  }

  /** The score counts at least the lines that match in a row. */
  lemma RunScore(
    a: seq<Line>, b: seq<Line>, eq: (Line, Line) -> bool, i: nat, j: nat, n: nat, steps: real)
    requires MatchRun(a, b, eq, i, j, n)
    ensures Matches(a, b, eq, i, j) >= n && Score(a, b, eq, i, j, steps) >= n
  {
    ScoreUnfold(a, b, eq, i, j, steps);
    RunMatches(a, b, eq, i, j, n);
  }

  lemma {:induction false} RunMatches(a: seq<Line>, b: seq<Line>, eq: (Line, Line) -> bool, i: nat, j: nat, n: nat)
    requires MatchRun(a, b, eq, i, j, n)
    ensures Matches(a, b, eq, i, j) >= n
    decreases n
  {
    if n > 0 {
      RunTail(a, b, eq, i, j, n);
      RunMatches(a, b, eq, i + 1, j + 1, n - 1);
    }
  }

  /** `b` is `a` without the `m` lines from `i` on, which do not match the line in their place; six at
      most, unless they are the last ones. */
  ghost predicate Removed(a: seq<Line>, b: seq<Line>, eq: (Line, Line) -> bool, i: nat, m: nat) {
    && |a| == |b| + m && i <= |b| && MatchRun(a, b, eq, 0, 0, i) && MatchRun(a, b, eq, i + m, i, |b| - i)
    && (i < |b| ==> m <= 6 && forall k :: i <= k < i + m ==> !eq(a[k], b[i]))
  }

  /** `b` is `a` with `m` lines more, from `i` on, which do not match the line in their place; ten at
      most, unless they are the last ones. */
  ghost predicate Added(a: seq<Line>, b: seq<Line>, eq: (Line, Line) -> bool, i: nat, m: nat) {
    && |b| == |a| + m && i <= |a| && MatchRun(a, b, eq, 0, 0, i) && MatchRun(a, b, eq, i, i + m, |a| - i)
    && (i < |a| ==> m <= 10 && forall k :: i <= k < i + m ==> !eq(a[i], b[k]))
  }

  /** Only line `i` is another one, and the old one does not match the line behind it either. */
  ghost predicate Changed(a: seq<Line>, b: seq<Line>, eq: (Line, Line) -> bool, i: nat) {
    && |a| == |b| && i < |a| && MatchRun(a, b, eq, 0, 0, i) && MatchRun(a, b, eq, i + 1, i + 1, |a| - i - 1)
    && !eq(a[i], b[i]) && (i + 1 < |b| ==> !eq(a[i], b[i + 1]))
  }

  /** Lines that do not match are skipped as far as the budget goes, and what follows is counted. */
  lemma {:induction false} Skip1Reaches(
    a: seq<Line>, b: seq<Line>, eq: (Line, Line) -> bool, i: nat, j: nat, d: nat, n: nat, st: real)
    requires d > 0 && n > 0 && MatchRun(a, b, eq, i + d, j, n) && st > (d - 1) as real
    ensures Skip1(a, b, eq, i, j, st) >= n
    decreases d
  {
    hide Score;
    if d == 1 {
      RunScore(a, b, eq, i + 1, j, n, st - 1.0);
    } else {
      Skip1Reaches(a, b, eq, i + 1, j, d - 1, n, st - 1.0);
    }
  }

  lemma {:induction false} Skip2Reaches(
    a: seq<Line>, b: seq<Line>, eq: (Line, Line) -> bool, i: nat, j: nat, d: nat, n: nat, st: real)
    requires d > 0 && n > 0 && MatchRun(a, b, eq, i, j + d, n) && st > (d - 1) as real
    ensures Skip2(a, b, eq, i, j, st) >= n
    decreases d
  {
    hide Score;
    if d == 1 {
      RunScore(a, b, eq, i, j + 1, n, st - 1.0);
    } else {
      Skip2Reaches(a, b, eq, i, j + 1, d - 1, n, st - 1.0);
    }
  }

  lemma NoMatchScore(a: seq<Line>, b: seq<Line>, eq: (Line, Line) -> bool, i: nat, j: nat)
    requires i < |a| && j < |b| && !eq(a[i], b[j])
    ensures Score(a, b, eq, i, j, 10.0) == Max(Skip1(a, b, eq, i, j, 4.5), Skip2(a, b, eq, i, j, 9.0))
  {
    hide Score, Skip1, Skip2;
    ScoreUnfold(a, b, eq, i, j, 10.0);
  }

  lemma Score1Reaches(a: seq<Line>, b: seq<Line>, eq: (Line, Line) -> bool, i: nat, j: nat, d: nat, n: nat)
    requires d <= 5 && n > 0 && MatchRun(a, b, eq, i + d, j, n) && (d > 0 ==> !eq(a[i], b[j]))
    ensures Score(a, b, eq, i, j, 10.0) >= n
  {
    hide Score, Skip1, Skip2, MatchRun;
    RunWithin(a, b, eq, i + d, j, n);
    if d == 0 {
      RunScore(a, b, eq, i, j, n, 10.0);
    } else {
      NoMatchScore(a, b, eq, i, j);
      Skip1Reaches(a, b, eq, i, j, d, n, 4.5);
    }
  }

  lemma Score2Reaches(a: seq<Line>, b: seq<Line>, eq: (Line, Line) -> bool, i: nat, j: nat, d: nat, n: nat)
    requires d <= 9 && n > 0 && MatchRun(a, b, eq, i, j + d, n) && (d > 0 ==> !eq(a[i], b[j]))
    ensures Score(a, b, eq, i, j, 10.0) >= n
  {
    hide Score, Skip1, Skip2, MatchRun;
    RunWithin(a, b, eq, i, j + d, n);
    if d == 0 {
      RunScore(a, b, eq, i, j, n, 10.0);
    } else {
      NoMatchScore(a, b, eq, i, j);
      Skip2Reaches(a, b, eq, i, j, d, n, 9.0);
    }
  }

  lemma DelFirst(a: seq<Line>, b: seq<Line>, eq: (Line, Line) -> bool, i: nat, j: nat)
    requires i < |a| && j < |b| && !eq(a[i], b[j])
    requires Score(a, b, eq, i + 1, j, 10.0) > Score(a, b, eq, i, j + 1, 10.0)
    ensures Choices(a, b, eq, i, j) == [Del] + Choices(a, b, eq, i + 1, j)
  {
    hide Score;
  }

  lemma InsFirst(a: seq<Line>, b: seq<Line>, eq: (Line, Line) -> bool, i: nat, j: nat)
    requires i < |a| && j < |b| && !eq(a[i], b[j])
    requires Score(a, b, eq, i, j + 1, 10.0) > 0
    requires Score(a, b, eq, i + 1, j, 10.0) <= Score(a, b, eq, i, j + 1, 10.0)
    ensures Choices(a, b, eq, i, j) == [Ins] + Choices(a, b, eq, i, j + 1)
  {
    hide Score;
  }

  lemma OneTimes(op: Op, m: nat, rest: seq<Op>)
    ensures [op] + (Times(op, m) + rest) == Times(op, m + 1) + rest && Times(op, 0) + rest == rest == rest + []
  {
    assert [op] + Times(op, m) == Times(op, m + 1);
    Assoc([op], Times(op, m), rest);
  }

  /** Keeping all that is left of both texts. */
  lemma KeepsAll(a: seq<Line>, b: seq<Line>, eq: (Line, Line) -> bool, i: nat, j: nat, n: nat)
    requires MatchRun(a, b, eq, i, j, n) && i + n == |a| && j + n == |b|
    ensures Choices(a, b, eq, i, j) == Times(Keep, n)
  {
    RunChoices(a, b, eq, i, j, n);
    hide Score, MatchRun, Times;
    OneTimes(Keep, 0, Times(Keep, n));
  }

  /** The walk over `m` removed lines. */
  lemma {:induction false} RemovesAll(a: seq<Line>, b: seq<Line>, eq: (Line, Line) -> bool, i: nat, j: nat, m: nat)
    requires m <= 6 && j < |b| && |a| - i == |b| - j + m && MatchRun(a, b, eq, i + m, j, |b| - j)
    requires forall k :: i <= k < i + m ==> !eq(a[k], b[j])
    ensures Choices(a, b, eq, i, j) == Times(Del, m) + Times(Keep, |b| - j)
    decreases m
  {
    hide Score, Choices, MatchRun, Times;
    var n := |b| - j;
    if m == 0 {
      KeepsAll(a, b, eq, i, j, n);
      OneTimes(Del, 0, Times(Keep, n));
    } else {
      Score1Reaches(a, b, eq, i + 1, j, m - 1, n);
      ScoreWithinLcs(a, b, eq, i, j + 1, 10.0);
      DelFirst(a, b, eq, i, j);
      RemovesAll(a, b, eq, i + 1, j, m - 1);
      OneTimes(Del, m - 1, Times(Keep, n));
    }
  }

  lemma {:induction false} AddsAll(a: seq<Line>, b: seq<Line>, eq: (Line, Line) -> bool, i: nat, j: nat, m: nat)
    requires m <= 10 && i < |a| && |b| - j == |a| - i + m && MatchRun(a, b, eq, i, j + m, |a| - i)
    requires forall k :: j <= k < j + m ==> !eq(a[i], b[k])
    ensures Choices(a, b, eq, i, j) == Times(Ins, m) + Times(Keep, |a| - i)
    decreases m
  {
    hide Score, Choices, MatchRun, Times;
    var n := |a| - i;
    if m == 0 {
      KeepsAll(a, b, eq, i, j, n);
      OneTimes(Ins, 0, Times(Keep, n));
    } else {
      Score2Reaches(a, b, eq, i, j + 1, m - 1, n);
      ScoreWithinLcs(a, b, eq, i + 1, j, 10.0);
      InsFirst(a, b, eq, i, j);
      AddsAll(a, b, eq, i, j + 1, m - 1);
      OneTimes(Ins, m - 1, Times(Keep, n));
    }
  }

  lemma RemovedChoices(a: seq<Line>, b: seq<Line>, eq: (Line, Line) -> bool, i: nat, m: nat)
    requires Removed(a, b, eq, i, m)
    ensures Choices(a, b, eq, 0, 0) ==
            if i < |b| then Times(Keep, i) + (Times(Del, m) + Times(Keep, |b| - i)) else Times(Keep, i)
  {
    hide Score, MatchRun;
    RunChoices(a, b, eq, 0, 0, i);
    if i < |b| {
      RemovesAll(a, b, eq, i, i, m);
    } else {
      assert Times(Keep, i) + [] == Times(Keep, i);
    }
  }

  lemma AddedChoices(a: seq<Line>, b: seq<Line>, eq: (Line, Line) -> bool, i: nat, m: nat)
    requires Added(a, b, eq, i, m)
    ensures Choices(a, b, eq, 0, 0) ==
            if i < |a| then Times(Keep, i) + (Times(Ins, m) + Times(Keep, |a| - i)) else Times(Keep, i)
  {
    hide Score, MatchRun;
    RunChoices(a, b, eq, 0, 0, i);
    if i < |a| {
      AddsAll(a, b, eq, i, i, m);
    } else {
      assert Times(Keep, i) + [] == Times(Keep, i);
    }
  }

  /** With a changed line in front, skipping it on the first side scores all that is left. */
  lemma ChangedScore(a: seq<Line>, b: seq<Line>, eq: (Line, Line) -> bool, i: nat)
    requires Changed(a, b, eq, i) && i + 1 < |a|
    ensures Score(a, b, eq, i, i + 1, 10.0) >= |a| - i - 1
  {
    hide Skip2, Score;
    ScoreUnfold(a, b, eq, i, i + 1, 10.0);
    Skip1Unfold(a, b, eq, i, i + 1, 4.5);
    RunScore(a, b, eq, i + 1, i + 1, |a| - i - 1, 3.5);
  }

  lemma ChangedChoices(a: seq<Line>, b: seq<Line>, eq: (Line, Line) -> bool, i: nat)
    requires Changed(a, b, eq, i)
    ensures Choices(a, b, eq, 0, 0) ==
            Times(Keep, i) + ((if i + 1 < |a| then [Ins, Del] else [Del, Ins]) + Times(Keep, |a| - i - 1))
  {
    hide Score, MatchRun, Choices;
    RunChoices(a, b, eq, 0, 0, i);
    var n := |a| - i - 1;
    ScoreWithinLcs(a, b, eq, i + 1, i, 10.0);
    ScoreWithinLcs(a, b, eq, i, i + 1, 10.0);
    KeepsAll(a, b, eq, i + 1, i + 1, n);
    if n > 0 {
      ChangedScore(a, b, eq, i);
      InsFirst(a, b, eq, i, i);
      RunScore(a, b, eq, i + 1, i + 1, n, 10.0);
      ScoreWithinLcs(a, b, eq, i, i + 2, 10.0);
      DelFirst(a, b, eq, i, i + 1);
      assert [Ins] + ([Del] + Times(Keep, n)) == [Ins, Del] + Times(Keep, n);
    } else {
      BothLast(a, b, eq, i, i);
    }
  }

  lemma BothLast(a: seq<Line>, b: seq<Line>, eq: (Line, Line) -> bool, i: nat, j: nat)
    requires i < |a| && j < |b| && !eq(a[i], b[j])
    requires Score(a, b, eq, i + 1, j, 10.0) == Score(a, b, eq, i, j + 1, 10.0) == 0
    ensures Choices(a, b, eq, i, j) == [Del, Ins] + Choices(a, b, eq, i + 1, j + 1)
  {
    hide Score;
  }

  lemma OneMore(script: seq<Op>, op: Op)
    ensures Deleted(script + [op]) == Deleted(script) + if op == Del then [Count(script, Ins)] else []
    ensures Inserted(script + [op]) == Inserted(script) + if op == Ins then [Count(script, Del)] else []
    ensures forall x :: Count(script + [op], x) == Count(script, x) + if op == x then 0 else 1
  {
    var all := script + [op];
    assert all[..|all| - 1] == script && all[|all| - 1] == op;
  }

  lemma {:induction false} KeepsMore(script: seq<Op>, n: nat)
    ensures Deleted(script + Times(Keep, n)) == Deleted(script) && Inserted(script + Times(Keep, n)) == Inserted(script)
    ensures forall x :: x != Keep ==> Count(script + Times(Keep, n), x) == Count(script, x) + n
    decreases n
  {
    if n == 0 {
      assert script + Times(Keep, 0) == script;
    } else {
      KeepsMore(script, n - 1);
      assert script + Times(Keep, n) == (script + Times(Keep, n - 1)) + [Keep];
      hide Deleted, Inserted, Count;
      OneMore(script + Times(Keep, n - 1), Keep);
    }
  }

  function Range(i: nat, m: nat): seq<nat> {
    seq(m, k requires 0 <= k < m => i + k)
  }

  /** What `m` deletions, or insertions, behind other steps come to. */
  lemma {:induction false} SameMore(script: seq<Op>, op: Op, m: nat)
    requires op != Keep
    ensures var s := script + Times(op, m);
            && Deleted(s) == Deleted(script) + (if op == Del then Range(Count(script, Ins), m) else [])
            && Inserted(s) == Inserted(script) + (if op == Ins then Range(Count(script, Del), m) else [])
            && Count(s, Ins) == Count(script, Ins) + (if op == Ins then 0 else m)
            && Count(s, Del) == Count(script, Del) + (if op == Del then 0 else m)
    decreases m
  {
    hide Deleted, Inserted, Count;
    if m == 0 {
      assert script + Times(op, 0) == script;
    } else {
      SameMore(script, op, m - 1);
      assert script + Times(op, m) == (script + Times(op, m - 1)) + [op];
      OneMore(script + Times(op, m - 1), op);
      var x := Count(script, if op == Del then Ins else Del);
      assert Range(x, m) == Range(x, m - 1) + [x + (m - 1)];
      Assoc(if op == Del then Deleted(script) else Inserted(script), Range(x, m - 1), [x + (m - 1)]);
    }
  }

  /** Keeps, `m` deletions or insertions, and keeps again. */
  lemma Around(i: nat, op: Op, m: nat, n: nat)
    requires op != Keep
    ensures var s := Times(Keep, i) + (Times(op, m) + Times(Keep, n));
            && Deleted(s) == (if op == Del then Range(i, m) else [])
            && Inserted(s) == (if op == Ins then Range(i, m) else [])
            && Count(s, Ins) == i + n + (if op == Ins then 0 else m)
            && Count(s, Del) == i + n + (if op == Del then 0 else m)
  {
    hide Deleted, Inserted, Count, Times, Range;
    var front := Times(Keep, i);
    Nothing();
    KeepsMore([], i);
    assert [] + front == front;
    SameMore(front, op, m);
    KeepsMore(front + Times(op, m), n);
    Assoc(front, Times(op, m), Times(Keep, n));
    assert [] + Range(i, m) == Range(i, m);
  }

  /** Keeps, a deletion and an insertion in either order, and keeps again. */
  lemma AroundChange(i: nat, mid: seq<Op>, n: nat)
    requires mid in {[Ins, Del], [Del, Ins]}
    ensures var s := Times(Keep, i) + (mid + Times(Keep, n));
            && Deleted(s) == [i] && Inserted(s) == [i] && Count(s, Ins) == i + n + 1 && Count(s, Del) == i + n + 1
  {
    hide Deleted, Inserted, Count;
    var front := Times(Keep, i);
    Nothing();
    KeepsMore([], i);
    assert [] + front == front;
    OneMore(front, mid[0]);
    OneMore(front + [mid[0]], mid[1]);
    assert front + mid == front + [mid[0]] + [mid[1]];
    KeepsMore(front + mid, n);
    Assoc(front, mid, Times(Keep, n));
  }

  lemma Nothing()
    ensures Deleted([]) == [] && Inserted([]) == [] && forall x :: Count([], x) == 0
  {
  }

  // ------------------------------------------------------------------- the generator

  /** A line of the diff: its number, counted from one, and its text. */
  datatype Entry = Minus(number: nat, text: Line) | Plus(number: nat, text: Line)

  function TextOf(w: seq<Line>, k: nat): Line {
    if k < |w| then w[k] else ""
  }

  function MinusOf(w: seq<Line>, ks: seq<nat>): (r: seq<Entry>)
    ensures |r| == |ks|
  {
    seq(|ks|, k requires 0 <= k < |ks| => Minus(ks[k] + 1, TextOf(w, ks[k])))
  }

  function PlusOf(b: seq<Line>, ks: seq<nat>): (r: seq<Entry>)
    ensures |r| == |ks|
  {
    seq(|ks|, k requires 0 <= k < |ks| => Plus(ks[k] + 1, TextOf(b, ks[k])))
  }

  /** The entries of one kind, in order. */
  function Only(diff: seq<Entry>, minus: bool): seq<Entry> {
    if diff == [] then []
    else (if diff[0].Minus? == minus then [diff[0]] else []) + Only(diff[1..], minus)
  }

  lemma {:induction false} OnlySnoc(diff: seq<Entry>, e: Entry, minus: bool)
    ensures Only(diff + [e], minus) == Only(diff, minus) + if e.Minus? == minus then [e] else []
    decreases |diff|
  {
    if diff == [] {
      assert diff + [e] == [e] && [e][1..] == [];
    } else {
      OnlySnoc(diff[1..], e, minus);
      var all := diff + [e];
      assert all[0] == diff[0] && all[1..] == diff[1..] + [e];
      var first: seq<Entry> := if diff[0].Minus? == minus then [diff[0]] else [];
      var last: seq<Entry> := if e.Minus? == minus then [e] else [];
      assert Only(all, minus) == first + Only(all[1..], minus);
      Assoc(first, Only(diff[1..], minus), last);
    }
  }

  /** The diff lists exactly the deletions and the insertions of `script`, each in order. */
  ghost predicate Describes(diff: seq<Entry>, script: seq<Op>, w: seq<Line>, b: seq<Line>) {
    Only(diff, true) == MinusOf(w, Deleted(script)) && Only(diff, false) == PlusOf(b, Inserted(script))
  }

  /** The walk: which lines are deleted and inserted before one text ends. */
  method Walk(a: seq<Line>, b: seq<Line>, eq: (Line, Line) -> bool)
    returns (old1: seq<nat>, old2: seq<nat>, idx1: nat, idx2: nat, ghost script: seq<Op>)
    ensures Leads(script, a, b, eq, idx1, idx2) && (idx1 == |a| || idx2 == |b|)
    ensures old1 == Deleted(script) && old2 == Inserted(script)
    ensures AllMatch(a, b, eq) ==> old1 == [] && old2 == [] && idx1 == idx2
    ensures script == Choices(a, b, eq, 0, 0)
  {
    hide Leads, Deleted, Inserted, Score, Choices;
    idx1, idx2, old1, old2, script := 0, 0, [], [], [];
    NoScript(a, b, eq);
    assert [] + Choices(a, b, eq, 0, 0) == Choices(a, b, eq, 0, 0);
    while idx1 < |a| && idx2 < |b|
      invariant idx1 <= |a| && idx2 <= |b| && Leads(script, a, b, eq, idx1, idx2)
      invariant old1 == Deleted(script) && old2 == Inserted(script)
      invariant AllMatch(a, b, eq) ==> old1 == [] && old2 == [] && idx1 == idx2
      invariant script + Choices(a, b, eq, idx1, idx2) == Choices(a, b, eq, 0, 0)
      decreases |a| - idx1 + |b| - idx2
    {
      ChoicesNext(a, b, eq, idx1, idx2, script);
      if eq(a[idx1], b[idx2]) {
        ScriptStep(script, Keep, a, b, eq, idx1, idx2);
        script := script + [Keep];
        idx1, idx2 := idx1 + 1, idx2 + 1;
        continue;
      }
      var c1 := CountDiff(a, b, eq, idx1 + 1, idx2, 10.0);
      var c2 := CountDiff(a, b, eq, idx1, idx2 + 1, 10.0);
      if c1 > c2 {
        ScriptStep(script, Del, a, b, eq, idx1, idx2);
        script, old1 := script + [Del], old1 + [idx1];
        idx1 := idx1 + 1;
      } else if c2 > 0 {
        ScriptStep(script, Ins, a, b, eq, idx1, idx2);
        script, old2 := script + [Ins], old2 + [idx2];
        idx2 := idx2 + 1;
      } else {
        ScriptStep(script, Del, a, b, eq, idx1, idx2);
        script, old1 := script + [Del], old1 + [idx1];
        idx1 := idx1 + 1;
        ScriptStep(script, Ins, a, b, eq, idx1, idx2);
        script, old2 := script + [Ins], old2 + [idx2];
        idx2 := idx2 + 1;
      }
    }
    ChoicesEnd(a, b, eq, idx1, idx2, script);
  }

  /** The next steps, behind those already made. */
  lemma ChoicesNext(a: seq<Line>, b: seq<Line>, eq: (Line, Line) -> bool, i: nat, j: nat, done: seq<Op>)
    requires i < |a| && j < |b|
    ensures var c1, c2 := Score(a, b, eq, i + 1, j, 10.0), Score(a, b, eq, i, j + 1, 10.0);
            done + Choices(a, b, eq, i, j) ==
            if eq(a[i], b[j]) then (done + [Keep]) + Choices(a, b, eq, i + 1, j + 1)
            else if c1 > c2 then (done + [Del]) + Choices(a, b, eq, i + 1, j)
            else if c2 > 0 then (done + [Ins]) + Choices(a, b, eq, i, j + 1)
            else (done + [Del] + [Ins]) + Choices(a, b, eq, i + 1, j + 1)
  {
    hide Score;
    Assoc(done, [Keep], Choices(a, b, eq, i + 1, j + 1));
    Assoc(done, [Del], Choices(a, b, eq, i + 1, j));
    Assoc(done, [Ins], Choices(a, b, eq, i, j + 1));
    assert done + [Del] + [Ins] == done + [Del, Ins];
    Assoc(done, [Del, Ins], Choices(a, b, eq, i + 1, j + 1));
  }

  lemma ChoicesEnd(a: seq<Line>, b: seq<Line>, eq: (Line, Line) -> bool, i: nat, j: nat, done: seq<Op>)
    requires i <= |a| && j <= |b| && (i == |a| || j == |b|)
    ensures done + Choices(a, b, eq, i, j) == done
  {
  }

  lemma NoScript(a: seq<Line>, b: seq<Line>, eq: (Line, Line) -> bool)
    ensures Leads([], a, b, eq, 0, 0) && Deleted([]) == [] && Inserted([]) == []
  {
  }

  ghost predicate AllMatch(a: seq<Line>, b: seq<Line>, eq: (Line, Line) -> bool) {
    |a| == |b| && forall k :: 0 <= k < |a| ==> eq(a[k], b[k])
  }

  /** Where the run of neighbouring lines of `ks` that `k` ends begins. */
  function RunStart(ks: seq<nat>, k: nat): (r: nat)
    ensures r <= k
  {
    if k > 0 && k - 1 in ks then RunStart(ks, k - 1) else k
  }

  ghost predicate Ascending(ks: seq<nat>) {
    forall x, y :: 0 <= x < y < |ks| ==> ks[x] < ks[y]
  }

  function StartOf(old1: seq<nat>, old2: seq<nat>, e: Entry): nat {
    if e.number == 0 then 0
    else if e.Minus? then RunStart(old1, e.number - 1)
    else RunStart(old2, e.number - 1)
  }

  /** Runs of neighbouring lines stay together, and come in the order of where they begin; of two
      that begin with the same number, the inserted one first. */
  predicate Before(old1: seq<nat>, old2: seq<nat>, e: Entry, f: Entry) {
    var x, y := StartOf(old1, old2, e), StartOf(old1, old2, f);
    x < y || (x == y && if e.Minus? == f.Minus? then e.number < f.number else e.Plus?)
  }

  ghost predicate InRuns(diff: seq<Entry>, old1: seq<nat>, old2: seq<nat>) {
    forall x, y :: 0 <= x < y < |diff| ==> Before(old1, old2, diff[x], diff[y])
  }

  /** What has been merged goes in front of what is left. */
  ghost predicate Ahead(diff: seq<Entry>, old1: seq<nat>, p1: nat, old2: seq<nat>, p2: nat) {
    && (forall x, q :: 0 <= x < |diff| && p1 <= q < |old1| ==> Before(old1, old2, diff[x], Minus(old1[q] + 1, "")))
    && (forall x, q :: 0 <= x < |diff| && p2 <= q < |old2| ==> Before(old1, old2, diff[x], Plus(old2[q] + 1, "")))
  }

  lemma {:induction false} StartsGrow(ks: seq<nat>, k: nat, l: nat)
    requires k in ks && k < l
    ensures RunStart(ks, k) <= RunStart(ks, l)
    decreases l
  {
    if l > 0 && l - 1 in ks && k < l - 1 { StartsGrow(ks, k, l - 1); }
  }

  /** Only the kind and the number of an entry matter. */
  lemma SameKey(old1: seq<nat>, old2: seq<nat>, e: Entry, f: Entry, g: Entry)
    requires f.Minus? == g.Minus? && f.number == g.number
    ensures Before(old1, old2, e, f) == Before(old1, old2, e, g) && Before(old1, old2, f, e) == Before(old1, old2, g, e)
  {
    hide RunStart;
  }

  /** When an entry goes in front of another, by the lines they are for. */
  lemma MinusBefore(old1: seq<nat>, old2: seq<nat>, k: nat, text: Line, l: nat)
    ensures k in old1 && k < l ==> Before(old1, old2, Minus(k + 1, text), Minus(l + 1, ""))
    ensures Before(old1, old2, Minus(k + 1, text), Plus(l + 1, "")) <==> RunStart(old1, k) < RunStart(old2, l)
  {
    hide RunStart;
    assert StartOf(old1, old2, Minus(k + 1, text)) == RunStart(old1, k);
    assert StartOf(old1, old2, Minus(l + 1, "")) == RunStart(old1, l);
    assert StartOf(old1, old2, Plus(l + 1, "")) == RunStart(old2, l);
    hide StartOf;
    if k in old1 && k < l { StartsGrow(old1, k, l); }
  }

  lemma PlusBefore(old1: seq<nat>, old2: seq<nat>, k: nat, text: Line, l: nat)
    ensures k in old2 && k < l ==> Before(old1, old2, Plus(k + 1, text), Plus(l + 1, ""))
    ensures Before(old1, old2, Plus(k + 1, text), Minus(l + 1, "")) <==> RunStart(old2, k) <= RunStart(old1, l)
  {
    hide RunStart;
    assert StartOf(old1, old2, Plus(k + 1, text)) == RunStart(old2, k);
    assert StartOf(old1, old2, Plus(l + 1, "")) == RunStart(old2, l);
    assert StartOf(old1, old2, Minus(l + 1, "")) == RunStart(old1, l);
    hide StartOf;
    if k in old2 && k < l { StartsGrow(old2, k, l); }
  }

  lemma RunsMore(diff: seq<Entry>, old1: seq<nat>, old2: seq<nat>, e: Entry, key: Entry)
    requires InRuns(diff, old1, old2) && e.Minus? == key.Minus? && e.number == key.number
    requires forall x :: 0 <= x < |diff| ==> Before(old1, old2, diff[x], key)
    ensures InRuns(diff + [e], old1, old2)
  {
    hide Before;
    var all := diff + [e];
    forall x, y | 0 <= x < y < |all| ensures Before(old1, old2, all[x], all[y]) {
      if y == |diff| { SameKey(old1, old2, diff[x], e, key); }
    }
  }

  lemma AheadMore(diff: seq<Entry>, old1: seq<nat>, p1: nat, old2: seq<nat>, p2: nat, q1: nat, q2: nat, e: Entry)
    requires Ahead(diff, old1, p1, old2, p2) && p1 <= q1 && p2 <= q2
    requires forall q :: q1 <= q < |old1| ==> Before(old1, old2, e, Minus(old1[q] + 1, ""))
    requires forall q :: q2 <= q < |old2| ==> Before(old1, old2, e, Plus(old2[q] + 1, ""))
    ensures Ahead(diff + [e], old1, q1, old2, q2)
  {
    hide Before;
  }

  lemma MinusGoes(diff: seq<Entry>, old1: seq<nat>, p1: nat, old2: seq<nat>, p2: nat, e: Entry)
    requires Ascending(old1) && Ascending(old2) && p1 < |old1| && p2 <= |old2|
    requires InRuns(diff, old1, old2) && Ahead(diff, old1, p1, old2, p2) && e == Minus(old1[p1] + 1, e.text)
    requires p2 < |old2| ==> RunStart(old1, old1[p1]) < RunStart(old2, old2[p2])
    ensures InRuns(diff + [e], old1, old2) && Ahead(diff + [e], old1, p1 + 1, old2, p2)
  {
    hide RunStart, Before, InRuns;
    RunsMore(diff, old1, old2, e, Minus(old1[p1] + 1, ""));
    forall q | p1 < q < |old1| ensures Before(old1, old2, e, Minus(old1[q] + 1, "")) {
      MinusBefore(old1, old2, old1[p1], e.text, old1[q]);
    }
    forall q | p2 <= q < |old2| ensures Before(old1, old2, e, Plus(old2[q] + 1, "")) {
      if p2 < q { StartsGrow(old2, old2[p2], old2[q]); }
      MinusBefore(old1, old2, old1[p1], e.text, old2[q]);
    }
    AheadMore(diff, old1, p1, old2, p2, p1 + 1, p2, e);
  }

  lemma PlusGoes(diff: seq<Entry>, old1: seq<nat>, p1: nat, old2: seq<nat>, p2: nat, e: Entry)
    requires Ascending(old1) && Ascending(old2) && p1 <= |old1| && p2 < |old2|
    requires InRuns(diff, old1, old2) && Ahead(diff, old1, p1, old2, p2) && e == Plus(old2[p2] + 1, e.text)
    requires p1 < |old1| ==> RunStart(old2, old2[p2]) <= RunStart(old1, old1[p1])
    ensures InRuns(diff + [e], old1, old2) && Ahead(diff + [e], old1, p1, old2, p2 + 1)
  {
    hide RunStart, Before, InRuns;
    RunsMore(diff, old1, old2, e, Plus(old2[p2] + 1, ""));
    forall q | p2 < q < |old2| ensures Before(old1, old2, e, Plus(old2[q] + 1, "")) {
      PlusBefore(old1, old2, old2[p2], e.text, old2[q]);
    }
    forall q | p1 <= q < |old1| ensures Before(old1, old2, e, Minus(old1[q] + 1, "")) {
      if p1 < q { StartsGrow(old1, old1[p1], old1[q]); }
      PlusBefore(old1, old2, old2[p2], e.text, old1[q]);
    }
    AheadMore(diff, old1, p1, old2, p2, p1, p2 + 1, e);
  }

  /** A line begins a run unless the one before it in its list is its neighbour. */
  lemma StartAt(ks: seq<nat>, p: nat)
    requires Ascending(ks) && p < |ks|
    ensures if p > 0 && ks[p - 1] + 1 == ks[p] then RunStart(ks, ks[p]) == RunStart(ks, ks[p - 1])
            else RunStart(ks, ks[p]) == ks[p]
  {
    if ks[p] > 0 && ks[p] - 1 in ks {
      var q :| 0 <= q < |ks| && ks[q] == ks[p] - 1;
      assert q < p;
      assert q == p - 1;
    }
  }

  /** The merge of the two lists: runs of neighbouring lines stay together, otherwise the smaller
      line number goes first. Keys are line indices plus `bias`, which is one where PHP evaluates
      the increment before the index. */
  method Merge(old1: seq<nat>, old2: seq<nat>, w: seq<Line>, b: seq<Line>, bias: nat) returns (diff: seq<Entry>)
    ensures Only(diff, true) == MinusOf(w, old1) && Only(diff, false) == PlusOf(b, old2)
    ensures |diff| == |old1| + |old2|
    ensures Ascending(old1) && Ascending(old2) ==> InRuns(diff, old1, old2)
  {
    hide Only, MinusOf, PlusOf, Ascending, InRuns, Ahead, Before, RunStart;
    NothingMerged(old1, old2);
    diff := [];
    var p1, p2, l1, l2 := 0, 0, -2, -2;
    MergeStart(old1, old2, w, b);
    while p1 < |old1| || p2 < |old2|
      invariant 0 <= p1 <= |old1| && 0 <= p2 <= |old2| && |diff| == p1 + p2
      invariant Only(diff, true) == MinusOf(w, old1[..p1]) && Only(diff, false) == PlusOf(b, old2[..p2])
      invariant l1 == if p1 == 0 then -2 else old1[p1 - 1] + bias
      invariant l2 == if p2 == 0 then -2 else old2[p2 - 1] + bias
      invariant Ascending(old1) && Ascending(old2) ==>
                  InRuns(diff, old1, old2) && Ahead(diff, old1, p1, old2, p2) && Emitted(diff, old1, p1, old2, p2)
      decreases |old1| - p1 + |old2| - p2
    {
      var first: bool;
      if p2 == |old2| {
        first := true;
      } else if p1 == |old1| {
        first := false;
      } else if old1[p1] + bias == l1 + 1 {
        first := true;
      } else if old2[p2] + bias == l2 + 1 {
        first := false;
      } else {
        first := old1[p1] + bias < old2[p2] + bias;
      }
      if Ascending(old1) && Ascending(old2) { RightFirst(diff, old1, p1, old2, p2, first); }
      if first {
        ghost var e := Minus(old1[p1] + 1, TextOf(w, old1[p1]));
        if Ascending(old1) && Ascending(old2) {
          MinusGoes(diff, old1, p1, old2, p2, e);
          EmittedMore(diff, old1, p1, old2, p2, e);
        }
        l1 := old1[p1] + bias;
        MergeMinus(diff, old1, p1, w);
        diff := diff + [Minus(old1[p1] + 1, TextOf(w, old1[p1]))];
        p1 := p1 + 1;
      } else {
        ghost var e := Plus(old2[p2] + 1, TextOf(b, old2[p2]));
        if Ascending(old1) && Ascending(old2) {
          PlusGoes(diff, old1, p1, old2, p2, e);
          EmittedMore(diff, old1, p1, old2, p2, e);
        }
        l2 := old2[p2] + bias;
        MergePlus(diff, old2, p2, b);
        diff := diff + [Plus(old2[p2] + 1, TextOf(b, old2[p2]))];
        p2 := p2 + 1;
      }
    }
    assert old1[..p1] == old1 && old2[..p2] == old2;
  }

  /** The last line of each list that was merged is in the diff. */
  ghost predicate Emitted(diff: seq<Entry>, old1: seq<nat>, p1: nat, old2: seq<nat>, p2: nat)
    requires p1 <= |old1| && p2 <= |old2|
  {
    && (p1 > 0 ==> exists x :: 0 <= x < |diff| && diff[x].Minus? && diff[x].number == old1[p1 - 1] + 1)
    && (p2 > 0 ==> exists x :: 0 <= x < |diff| && diff[x].Plus? && diff[x].number == old2[p2 - 1] + 1)
  }

  lemma EmittedMore(diff: seq<Entry>, old1: seq<nat>, p1: nat, old2: seq<nat>, p2: nat, e: Entry)
    requires p1 <= |old1| && p2 <= |old2| && Emitted(diff, old1, p1, old2, p2)
    requires if e.Minus? then p1 < |old1| && e.number == old1[p1] + 1 else p2 < |old2| && e.number == old2[p2] + 1
    ensures Emitted(diff + [e], old1, if e.Minus? then p1 + 1 else p1, old2, if e.Minus? then p2 else p2 + 1)
  {
    var all := diff + [e];
    assert all[|diff|] == e;
    assert forall x :: 0 <= x < |diff| ==> all[x] == diff[x];
  }

  lemma NothingMerged(old1: seq<nat>, old2: seq<nat>)
    ensures InRuns([], old1, old2) && Ahead([], old1, 0, old2, 0) && Emitted([], old1, 0, old2, 0)
  {
  }

  /** The rule of the merge picks the run that begins first. */
  lemma RightFirst(diff: seq<Entry>, old1: seq<nat>, p1: nat, old2: seq<nat>, p2: nat, first: bool)
    requires Ascending(old1) && Ascending(old2) && p1 <= |old1| && p2 <= |old2| && (p1 < |old1| || p2 < |old2|)
    requires Ahead(diff, old1, p1, old2, p2) && Emitted(diff, old1, p1, old2, p2)
    requires first ==
             if p2 == |old2| then true
             else if p1 == |old1| then false
             else if p1 > 0 && old1[p1] == old1[p1 - 1] + 1 then true
             else if p2 > 0 && old2[p2] == old2[p2 - 1] + 1 then false
             else old1[p1] < old2[p2]
    ensures p1 < |old1| && p2 < |old2| ==>
              if first then RunStart(old1, old1[p1]) < RunStart(old2, old2[p2])
              else RunStart(old2, old2[p2]) <= RunStart(old1, old1[p1])
  {
    hide RunStart, Before, Ascending;
    if p1 < |old1| && p2 < |old2| {
      StartAt(old1, p1);
      StartAt(old2, p2);
      if p1 > 0 && old1[p1] == old1[p1 - 1] + 1 {
        var x :| 0 <= x < |diff| && diff[x].Minus? && diff[x].number == old1[p1 - 1] + 1;
        assert Before(old1, old2, diff[x], Plus(old2[p2] + 1, ""));
        MinusBefore(old1, old2, old1[p1 - 1], diff[x].text, old2[p2]);
      } else if p2 > 0 && old2[p2] == old2[p2 - 1] + 1 {
        var x :| 0 <= x < |diff| && diff[x].Plus? && diff[x].number == old2[p2 - 1] + 1;
        assert Before(old1, old2, diff[x], Minus(old1[p1] + 1, ""));
        PlusBefore(old1, old2, old2[p2 - 1], diff[x].text, old1[p1]);
      }
    }
  }

  lemma MergeStart(old1: seq<nat>, old2: seq<nat>, w: seq<Line>, b: seq<Line>)
    ensures Only([], true) == MinusOf(w, old1[..0]) && Only([], false) == PlusOf(b, old2[..0])
  {
  }

  lemma MergeMinus(diff: seq<Entry>, old1: seq<nat>, p: nat, w: seq<Line>)
    requires p < |old1| && Only(diff, true) == MinusOf(w, old1[..p])
    ensures var next := diff + [Minus(old1[p] + 1, TextOf(w, old1[p]))];
            Only(next, true) == MinusOf(w, old1[..p + 1]) && Only(next, false) == Only(diff, false)
  {
    hide Only;
    OnlySnoc(diff, Minus(old1[p] + 1, TextOf(w, old1[p])), true);
    OnlySnoc(diff, Minus(old1[p] + 1, TextOf(w, old1[p])), false);
    assert old1[..p + 1] == old1[..p] + [old1[p]];
  }

  lemma MergePlus(diff: seq<Entry>, old2: seq<nat>, p: nat, b: seq<Line>)
    requires p < |old2| && Only(diff, false) == PlusOf(b, old2[..p])
    ensures var next := diff + [Plus(old2[p] + 1, TextOf(b, old2[p]))];
            Only(next, false) == PlusOf(b, old2[..p + 1]) && Only(next, true) == Only(diff, true)
  {
    hide Only;
    OnlySnoc(diff, Plus(old2[p] + 1, TextOf(b, old2[p])), true);
    OnlySnoc(diff, Plus(old2[p] + 1, TextOf(b, old2[p])), false);
    assert old2[..p + 1] == old2[..p] + [old2[p]];
  }

  /** The whole script: the walk, and what is left of the text that has not ended. */
  function Script(a: seq<Line>, b: seq<Line>, eq: (Line, Line) -> bool): seq<Op> {
    var walk := Choices(a, b, eq, 0, 0);
    Finished(a, b, walk, |a| - Count(walk, Ins), |b| - Count(walk, Del))
  }

  function Finished(a: seq<Line>, b: seq<Line>, walk: seq<Op>, dels: int, inss: int): seq<Op> {
    walk + Times(Del, if dels < 0 then 0 else dels) + Times(Ins, if inss < 0 then 0 else inss)
  }

  lemma TimesMore(script: seq<Op>, op: Op, n: nat)
    ensures script + Times(op, n + 1) == script + Times(op, n) + [op] && script + Times(op, 0) == script
  {
    assert Times(op, n + 1) == Times(op, n) + [op];
    Assoc(script, Times(op, n), [op]);
  }

  /** Removed lines: what the whole script deletes and inserts. */
  lemma RemovedScript(a: seq<Line>, b: seq<Line>, eq: (Line, Line) -> bool, i: nat, m: nat)
    requires Removed(a, b, eq, i, m)
    ensures Deleted(Script(a, b, eq)) == Range(i, m) && Inserted(Script(a, b, eq)) == []
  {
    hide Deleted, Inserted, Count, Choices, MatchRun, Range;
    RemovedChoices(a, b, eq, i, m);
    var walk := Choices(a, b, eq, 0, 0);
    if i < |b| {
      Around(i, Del, m, |b| - i);
      NoTail(a, b, eq, walk);
    } else {
      OnlyKept(i);
      SameMore(walk, Del, m);
      TimesMore(walk + Times(Del, m), Ins, 0);
      assert [] + Range(i, m) == Range(i, m);
    }
  }

  lemma AddedScript(a: seq<Line>, b: seq<Line>, eq: (Line, Line) -> bool, i: nat, m: nat)
    requires Added(a, b, eq, i, m)
    ensures Deleted(Script(a, b, eq)) == [] && Inserted(Script(a, b, eq)) == Range(i, m)
  {
    hide Deleted, Inserted, Count, Choices, MatchRun, Range;
    AddedChoices(a, b, eq, i, m);
    var walk := Choices(a, b, eq, 0, 0);
    if i < |a| {
      Around(i, Ins, m, |a| - i);
      NoTail(a, b, eq, walk);
    } else {
      OnlyKept(i);
      TimesMore(walk, Del, 0);
      SameMore(walk, Ins, m);
      assert [] + Range(i, m) == Range(i, m);
    }
  }

  lemma OnlyKept(i: nat)
    ensures var s := Times(Keep, i);
            Deleted(s) == [] && Inserted(s) == [] && Count(s, Ins) == i && Count(s, Del) == i
  {
    hide Deleted, Inserted, Count;
    Nothing();
    KeepsMore([], i);
    assert [] + Times(Keep, i) == Times(Keep, i);
  }

  lemma ChangedScript(a: seq<Line>, b: seq<Line>, eq: (Line, Line) -> bool, i: nat)
    requires Changed(a, b, eq, i)
    ensures Script(a, b, eq) == Choices(a, b, eq, 0, 0)
    ensures Deleted(Script(a, b, eq)) == [i] && Inserted(Script(a, b, eq)) == [i]
  {
    hide Deleted, Inserted, Count, Choices;
    ChangedChoices(a, b, eq, i);
    var mid := if i + 1 < |a| then [Ins, Del] else [Del, Ins];
    AroundChange(i, mid, |a| - i - 1);
    NoTail(a, b, eq, Choices(a, b, eq, 0, 0));
  }

  lemma NoTail(a: seq<Line>, b: seq<Line>, eq: (Line, Line) -> bool, walk: seq<Op>)
    requires Count(walk, Ins) >= |a| && Count(walk, Del) >= |b|
    ensures Finished(a, b, walk, |a| - Count(walk, Ins), |b| - Count(walk, Del)) == walk
  {
    TimesMore(walk, Del, 0);
    TimesMore(walk, Ins, 0);
  }

  /** Without entries of the one kind, those of the other are all. */
  lemma {:induction false} OnlyAll(diff: seq<Entry>, minus: bool)
    requires Only(diff, !minus) == []
    ensures Only(diff, minus) == diff
    decreases |diff|
  {
    if diff != [] {
      assert diff[0].Minus? == minus;
      assert Only(diff, !minus) == [] + Only(diff[1..], !minus);
      OnlyAll(diff[1..], minus);
    }
  }

  lemma OnlyTwo(diff: seq<Entry>, m: Entry, p: Entry, old1: seq<nat>, old2: seq<nat>)
    requires m.Minus? && p.Plus? && Only(diff, true) == [m] && Only(diff, false) == [p]
    requires InRuns(diff, old1, old2) && Before(old1, old2, p, m)
    ensures diff == [p, m]
  {
    hide Before;
    assert diff != [];
    var first := diff[0].Minus?;
    assert Only(diff, first) == [diff[0]] + Only(diff[1..], first);
    assert Only(diff[1..], first) == Only(diff, first)[1..] == [];
    assert Only(diff, !first) == [] + Only(diff[1..], !first);
    var other := if first then p else m;
    OnlyAll(diff[1..], !first);
    assert Only(diff, !first) == [other];
    assert diff[1..] == [other] && diff == [diff[0]] + diff[1..];
    if first {
      assert Before(old1, old2, diff[0], diff[1]);
      NotBoth(old1, old2, m, p);
    }
  }

  lemma NotBoth(old1: seq<nat>, old2: seq<nat>, e: Entry, f: Entry)
    requires Before(old1, old2, e, f)
    ensures !Before(old1, old2, f, e)
  {
    hide StartOf;
  }

  lemma SameLinePlusFirst(i: nat, s: Line, t: Line)
    ensures Before([i], [i], Plus(i + 1, s), Minus(i + 1, t))
  {
  }

  /** The diff of one edit. */
  lemma OneEdit(a: seq<Line>, b: seq<Line>, eq: (Line, Line) -> bool, w: seq<Line>, diff: seq<Entry>, cut: nat)
    requires Describes(diff, Script(a, b, eq), w, b) && cut <= |diff|
    requires var walk := Choices(a, b, eq, 0, 0);
             InRuns(diff[..cut], Deleted(walk), Inserted(walk)) && (walk == Script(a, b, eq) ==> cut == |diff|)
    ensures forall i: nat, m: nat :: Removed(a, b, eq, i, m) ==> diff == Minuses(w, i, m)
    ensures forall i: nat, m: nat :: Added(a, b, eq, i, m) ==> diff == Pluses(b, i, m)
    ensures forall i: nat :: Changed(a, b, eq, i) ==> diff == Pluses(b, i, 1) + Minuses(w, i, 1)
  {
    hide Script, Choices, Deleted, Inserted, Only, Removed, Added, Changed, InRuns, Before;
    forall i: nat, m: nat | Removed(a, b, eq, i, m) ensures diff == Minuses(w, i, m) {
      RemovedScript(a, b, eq, i, m);
      assert MinusOf(w, Range(i, m)) == Minuses(w, i, m) && PlusOf(b, []) == [];
      OnlyAll(diff, true);
    }
    forall i: nat, m: nat | Added(a, b, eq, i, m) ensures diff == Pluses(b, i, m) {
      AddedScript(a, b, eq, i, m);
      assert PlusOf(b, Range(i, m)) == Pluses(b, i, m) && MinusOf(w, []) == [];
      OnlyAll(diff, false);
    }
    forall i: nat | Changed(a, b, eq, i) ensures diff == Pluses(b, i, 1) + Minuses(w, i, 1) {
      ChangedScript(a, b, eq, i);
      assert PlusOf(b, [i]) == Pluses(b, i, 1) && MinusOf(w, [i]) == Minuses(w, i, 1);
      assert diff[..cut] == diff;
      SameLinePlusFirst(i, TextOf(b, i), TextOf(w, i));
      OnlyTwo(diff, Minus(i + 1, TextOf(w, i)), Plus(i + 1, TextOf(b, i)), [i], [i]);
    }
  }

  /** The entries for `m` lines from `i` on. */
  function Minuses(w: seq<Line>, i: nat, m: nat): seq<Entry> {
    seq(m, k requires 0 <= k < m => Minus(i + k + 1, TextOf(w, i + k)))
  }

  function Pluses(b: seq<Line>, i: nat, m: nat): seq<Entry> {
    seq(m, k requires 0 <= k < m => Plus(i + k + 1, TextOf(b, i + k)))
  }

  /** generate_array_diff. `a` is what is compared, `w` what is shown of it; the first `cut` entries
      come from the walk and are in the order of their runs. */
  method GenerateDiff(a: seq<Line>, b: seq<Line>, eq: (Line, Line) -> bool, w: seq<Line>, bias: nat)
    returns (diff: seq<Entry>, ghost script: seq<Op>, ghost cut: nat)
    ensures Leads(script, a, b, eq, |a|, |b|) && Describes(diff, script, w, b) && script == Script(a, b, eq)
    ensures diff == [] <==> AllMatch(a, b, eq)
    ensures cut <= |diff|
    ensures var walk := Choices(a, b, eq, 0, 0);
            Describes(diff[..cut], walk, w, b) && InRuns(diff[..cut], Deleted(walk), Inserted(walk))
    ensures forall i: nat, m: nat :: Removed(a, b, eq, i, m) ==> diff == Minuses(w, i, m)
    ensures forall i: nat, m: nat :: Added(a, b, eq, i, m) ==> diff == Pluses(b, i, m)
    ensures forall i: nat :: Changed(a, b, eq, i) ==> diff == Pluses(b, i, 1) + Minuses(w, i, 1)
  {
    diff, script, cut := Generate(a, b, eq, w, bias);
    OneEdit(a, b, eq, w, diff, cut);
  }

  method Generate(a: seq<Line>, b: seq<Line>, eq: (Line, Line) -> bool, w: seq<Line>, bias: nat)
    returns (diff: seq<Entry>, ghost script: seq<Op>, ghost cut: nat)
    ensures Leads(script, a, b, eq, |a|, |b|) && Describes(diff, script, w, b) && script == Script(a, b, eq)
    ensures diff == [] <==> AllMatch(a, b, eq)
    ensures cut <= |diff| && (script == Choices(a, b, eq, 0, 0) ==> cut == |diff|)
    ensures var walk := Choices(a, b, eq, 0, 0);
            Describes(diff[..cut], walk, w, b) && InRuns(diff[..cut], Deleted(walk), Inserted(walk))
  {
    hide Leads, Deleted, Inserted, Only, MinusOf, PlusOf, Choices, InRuns, Ascending, Count, Times;
    var old1, old2, idx1, idx2;
    old1, old2, idx1, idx2, script := Walk(a, b, eq);
    LeadsCounts(script, a, b, eq, idx1, idx2);
    WalkAscends(script, a, b, eq, idx1, idx2);
    diff := Merge(old1, old2, w, b, bias);
    cut := |diff|;
    ghost var walk, merged, i, j := script, diff, idx1, idx2;
    assert diff[..cut] == diff;
    TimesMore(walk, Del, 0);
    while idx1 < |a|
      invariant i <= idx1 <= |a| && idx2 == j <= |b| && (idx1 == |a| || idx2 == |b|)
      invariant Leads(script, a, b, eq, idx1, idx2) && Describes(diff, script, w, b)
      invariant script == walk + Times(Del, idx1 - i) && |diff| == cut + (idx1 - i) && diff[..cut] == merged
      invariant AllMatch(a, b, eq) ==> diff == [] && idx1 == idx2
      invariant diff == [] ==> Deleted(script) == [] && Inserted(script) == []
    {
      ScriptStep(script, Del, a, b, eq, idx1, idx2);
      DescribesMinus(diff, script, idx1, w, b);
      TimesMore(walk, Del, idx1 - i);
      diff := diff + [Minus(idx1 + 1, TextOf(w, idx1))];
      script := script + [Del];
      idx1 := idx1 + 1;
    }
    ghost var most := script;
    TimesMore(most, Ins, 0);
    while idx2 < |b|
      invariant idx1 == |a| && j <= idx2 <= |b|
      invariant Leads(script, a, b, eq, idx1, idx2) && Describes(diff, script, w, b)
      invariant script == most + Times(Ins, idx2 - j)
      invariant |diff| == cut + (idx1 - i) + (idx2 - j) && diff[..cut] == merged
      invariant AllMatch(a, b, eq) ==> diff == [] && idx1 == idx2
      invariant diff == [] ==> Deleted(script) == [] && Inserted(script) == []
    {
      ScriptStep(script, Ins, a, b, eq, idx1, idx2);
      DescribesPlus(diff, script, idx2, w, b);
      TimesMore(most, Ins, idx2 - j);
      diff := diff + [Plus(idx2 + 1, TextOf(b, idx2))];
      script := script + [Ins];
      idx2 := idx2 + 1;
    }
    if diff == [] {
      OnlyKeeps(script, a, b, eq, |a|, |b|);
    }
  }

  lemma WalkAscends(script: seq<Op>, a: seq<Line>, b: seq<Line>, eq: (Line, Line) -> bool, i: nat, j: nat)
    requires Leads(script, a, b, eq, i, j)
    ensures Ascending(Deleted(script)) && Ascending(Inserted(script))
  {
    hide Leads, Deleted, Inserted;
    Partition(script, a, b, eq, i, j);
  }

  lemma DescribesMinus(diff: seq<Entry>, script: seq<Op>, i: nat, w: seq<Line>, b: seq<Line>)
    requires Describes(diff, script, w, b)
    requires Deleted(script + [Del]) == Deleted(script) + [i] && Inserted(script + [Del]) == Inserted(script) + []
    ensures Describes(diff + [Minus(i + 1, TextOf(w, i))], script + [Del], w, b)
  {
    hide Only, Deleted, Inserted;
    var e := Minus(i + 1, TextOf(w, i));
    OnlySnoc(diff, e, true);
    OnlySnoc(diff, e, false);
    assert MinusOf(w, Deleted(script) + [i]) == MinusOf(w, Deleted(script)) + [e];
  }

  lemma DescribesPlus(diff: seq<Entry>, script: seq<Op>, j: nat, w: seq<Line>, b: seq<Line>)
    requires Describes(diff, script, w, b)
    requires Inserted(script + [Ins]) == Inserted(script) + [j] && Deleted(script + [Ins]) == Deleted(script) + []
    ensures Describes(diff + [Plus(j + 1, TextOf(b, j))], script + [Ins], w, b)
  {
    hide Only, Deleted, Inserted;
    var e := Plus(j + 1, TextOf(b, j));
    OnlySnoc(diff, e, true);
    OnlySnoc(diff, e, false);
    assert PlusOf(b, Inserted(script) + [j]) == PlusOf(b, Inserted(script)) + [e];
  }

  /** A script that deletes and inserts nothing pairs every line with its counterpart. */
  lemma {:induction false} OnlyKeeps(
    script: seq<Op>, a: seq<Line>, b: seq<Line>, eq: (Line, Line) -> bool, i: nat, j: nat)
    requires Leads(script, a, b, eq, i, j) && Deleted(script) == [] && Inserted(script) == []
    ensures i == j && forall k :: 0 <= k < i ==> k < |a| && k < |b| && eq(a[k], b[k])
    decreases |script|
  {
    if script != [] {
      OnlyKeeps(script[..|script| - 1], a, b, eq, i - 1, j - 1);
    }
  }
}
