/**
  * The binary min-heap behind the timers (core/heap.c): nodes in an array from index one,
  * and for every node the position where it stands. Moving a node shifts the others over
  * the gap; the node itself is written once, at the end.
  */
module Heap {

  /** A heap node: `id` stands for the node's address. */
  datatype Node = Node(id: nat, priority: int)

  // -------------------------------------------------------------------- heap order

  ghost predicate Ordered(s: seq<Node>) {
    forall k :: 2 <= k < |s| ==> s[k / 2].priority <= s[k].priority
  }

  /** Ordered, but `s[i]` may be smaller than its parent. */
  ghost predicate OrderedUp(s: seq<Node>, i: nat) {
    && 1 <= i < |s|
    && (forall k :: 2 <= k < |s| && k != i ==> s[k / 2].priority <= s[k].priority)
    && (forall k :: 2 <= k < |s| && k / 2 == i && i >= 2 ==> s[i / 2].priority <= s[k].priority)
  }

  /** Ordered, but `s[i]` may be larger than its children. */
  ghost predicate OrderedDown(s: seq<Node>, i: nat) {
    && 1 <= i < |s|
    && (forall k :: 2 <= k < |s| && k / 2 != i ==> s[k / 2].priority <= s[k].priority)
    && (forall k :: 2 <= k < |s| && k / 2 == i && i >= 2 ==> s[i / 2].priority <= s[k].priority)
  }

  lemma {:induction false} RootIsLeast(s: seq<Node>, k: nat)
    requires Ordered(s) && 1 <= k < |s|
    ensures s[1].priority <= s[k].priority
    decreases k
  {
    if k >= 2 {
      RootIsLeast(s, k / 2);
    }
  }

  function Swap(s: seq<Node>, i: nat, j: nat): seq<Node>
    requires i < |s| && j < |s|
  {
    s[i := s[j]][j := s[i]]
  }

  lemma SwapUp(s: seq<Node>, i: nat)
    requires OrderedUp(s, i) && i >= 2 && s[i / 2].priority > s[i].priority
    ensures OrderedUp(Swap(s, i, i / 2), i / 2)
  {
    var p := i / 2;
    var t := Swap(s, i, p);
    forall k | 2 <= k < |t| && k != p ensures t[k / 2].priority <= t[k].priority {
      if k == i {
      } else if k / 2 == i {
      } else if k / 2 == p {
        assert s[p].priority <= s[k].priority;
      } else {
      }
    }
    forall k | 2 <= k < |t| && k / 2 == p && p >= 2 ensures t[p / 2].priority <= t[k].priority {
      assert s[p / 2].priority <= s[p].priority;
      if k != i { assert s[p].priority <= s[k].priority; }
    }
  }

  lemma SwapDown(s: seq<Node>, i: nat, c: nat)
    requires OrderedDown(s, i) && 2 <= c < |s| && c / 2 == i
    requires forall k :: 2 <= k < |s| && k / 2 == i ==> s[c].priority <= s[k].priority
    requires s[i].priority > s[c].priority
    ensures OrderedDown(Swap(s, i, c), c)
  {
    var t := Swap(s, i, c);
    forall k | 2 <= k < |t| && k / 2 != c ensures t[k / 2].priority <= t[k].priority {
      if k / 2 == i {
      } else if k == i {
        assert i >= 2 ==> s[i / 2].priority <= s[c].priority;
      } else {
      }
    }
  }

  lemma SettledUp(s: seq<Node>, i: nat)
    requires OrderedUp(s, i) && (i == 1 || s[i / 2].priority <= s[i].priority)
    ensures Ordered(s)
  {
  }

  lemma SettledDown(s: seq<Node>, i: nat)
    requires OrderedDown(s, i)
    requires forall k :: 2 <= k < |s| && k / 2 == i ==> s[i].priority <= s[k].priority
    ensures Ordered(s)
  {
  }

  // ---------------------------------------------------------------------- positions

  /** Every node but the one at `i` is where its position says, and no two share an id. */
  ghost predicate PlacedBut(s: seq<Node>, pos: map<nat, nat>, i: nat) {
    && (forall k :: 1 <= k < |s| && k != i ==> s[k].id in pos && pos[s[k].id] == k)
    && (1 <= i < |s| ==> forall k :: 1 <= k < |s| && k != i ==> s[k].id != s[i].id)
  }

  ghost predicate Placed(s: seq<Node>, pos: map<nat, nat>) {
    forall k :: 1 <= k < |s| ==> s[k].id in pos && pos[s[k].id] == k
  }

  lemma ShiftPlaced(s: seq<Node>, pos: map<nat, nat>, i: nat, j: nat)
    requires 1 <= i < |s| && 1 <= j < |s| && i != j && PlacedBut(s, pos, i)
    ensures PlacedBut(Swap(s, i, j), pos[s[j].id := i], j)
  {
  }

  lemma PlaceLast(s: seq<Node>, pos: map<nat, nat>, i: nat)
    requires 1 <= i < |s| && PlacedBut(s, pos, i)
    ensures Placed(s, pos[s[i].id := i])
  {
  }

  // ----------------------------------------------------------------------- contents

  ghost function Elements(s: seq<Node>): multiset<Node>
    requires |s| >= 1
  {
    multiset(s[1..])
  }

  lemma UpdateElements(s: seq<Node>, i: nat, n: Node)
    requires 1 <= i < |s|
    ensures Elements(s[i := n]) == Elements(s) - multiset{s[i]} + multiset{n}
  {
    assert s[i := n][1..] == s[1..][i - 1 := n];
    assert s[1..][i - 1] == s[i];
  }

  lemma SwapElements(s: seq<Node>, i: nat, j: nat)
    requires 1 <= i < |s| && 1 <= j < |s|
    ensures Elements(Swap(s, i, j)) == Elements(s)
  {
    var t := s[i := s[j]];
    UpdateElements(s, i, s[j]);
    UpdateElements(t, j, s[i]);
    assert s[i] in s[1..] by { assert s[1..][i - 1] == s[i]; }
    assert t[j] == s[j];
  }

  /** `c` is a least child of `i`, or zero where `i` has no child. */
  ghost predicate IsLeastChild(s: seq<Node>, i: nat, c: nat) {
    if c == 0 then 2 * i >= |s|
    else 2 <= c < |s| && c / 2 == i && forall k :: 2 <= k < |s| && k / 2 == i ==> s[c].priority <= s[k].priority
  }

  lemma LeastChildRange(s: seq<Node>, i: nat, c: nat)
    requires IsLeastChild(s, i, c) && 1 <= i
    ensures c == 0 || i < c < |s|
  {
  }

  lemma LeastChildSame(s: seq<Node>, i: nat, c: nat, n: Node)
    requires IsLeastChild(s, i, c) && 1 <= i < |s|
    ensures IsLeastChild(s[i := n], i, c)
  {
  }

  /** One step of percolating down. */
  lemma Descend(s: seq<Node>, pos: map<nat, nat>, i: nat, c: nat)
    requires OrderedDown(s, i) && PlacedBut(s, pos, i) && c != 0 && IsLeastChild(s, i, c)
    requires s[i].priority > s[c].priority
    ensures OrderedDown(Swap(s, i, c), c) && PlacedBut(Swap(s, i, c), pos[s[c].id := i], c)
    ensures Elements(Swap(s, i, c)) == Elements(s)
  {
    SwapDown(s, i, c);
    ShiftPlaced(s, pos, i, c);
    SwapElements(s, i, c);
  }

  /** Moving the child up over the gap is an exchange of what the heap stands for. */
  lemma Shifted(s: seq<Node>, v: seq<Node>, i: nat, c: nat, moving: Node)
    requires i < |s| && c < |s| && i != c && s[i := moving] == v
    ensures v[c] == s[c] && s[i := s[c]][c := moving] == Swap(v, i, c)
  {
  }

  lemma Settle(s: seq<Node>, i: nat, c: nat)
    requires OrderedDown(s, i) && IsLeastChild(s, i, c)
    requires c != 0 ==> s[i].priority <= s[c].priority
    ensures Ordered(s)
  {
    SettledDown(s, i);
  }

  class MinHeap {
    var nodes: array<Node>
    var num: nat                 // one more than the number of nodes
    var position: map<nat, nat>

    ghost predicate Valid()
      reads this, nodes
    {
      && 1 <= num <= nodes.Length
      && Ordered(nodes[..num]) && Placed(nodes[..num], position)
    }

    ghost function Contents(): multiset<Node>
      reads this, nodes
      requires 1 <= num <= nodes.Length
    {
      Elements(nodes[..num])
    }

    constructor (n: nat)
      ensures Valid() && fresh(nodes) && num == 1
    {
      nodes := new Node[n + 1](_ => Node(0, 0));
      num, position := 1, map[];
    }

    /** swHeap_bubble_up. A node not smaller than the root never replaces it. */
    method BubbleUp(start: nat)
      requires 1 <= num <= nodes.Length && OrderedUp(nodes[..num], start) && PlacedBut(nodes[..num], position, start)
      modifies this`position, nodes
      ensures Valid() && Contents() == old(Contents())
      ensures start >= 2 && old(nodes[start]).priority >= old(nodes[1]).priority ==> nodes[1] == old(nodes[1])
    {
      hide Ordered, OrderedUp, PlacedBut, Placed, Elements;
      OrderedUpRange(nodes[..num], start);
      var moving, i := nodes[start], start;
      ghost var v := nodes[..num];
      ghost var root := nodes[1];
      while i > 1 && nodes[i / 2].priority > moving.priority
        invariant 1 <= i < num && num == old(num) && |v| == num
        invariant v[i] == moving && nodes[..num][i := moving] == v
        invariant OrderedUp(v, i) && PlacedBut(v, position, i) && Elements(v) == old(Contents())
        invariant start >= 2 && moving.priority >= root.priority ==> i >= 2 && v[1] == root
      {
        var p := i / 2;
        assert v[p] == nodes[p];
        SwapUp(v, i);
        ShiftPlaced(v, position, i, p);
        SwapElements(v, i, p);
        if start >= 2 && moving.priority >= root.priority { UpKeepsRoot(v, i, root); }
        nodes[i] := nodes[p];
        position := position[nodes[i].id := i];
        v := Swap(v, i, p);
        i := p;
        assert nodes[..num][i := moving] == v;
      }
      if i > 1 { assert v[i / 2] == nodes[i / 2]; }
      SettledUp(v, i);
      PlaceLast(v, position, i);
      nodes[i] := moving;
      position := position[moving.id := i];
      assert nodes[..num] == v;
    }

    /** swHeap_maxchild: the smaller child of `i`, or zero. */
    method LeastChild(i: nat) returns (c: nat)
      requires 1 <= i < num <= nodes.Length
      ensures IsLeastChild(nodes[..num], i, c)
    {
      c := 2 * i;
      if c >= num { return 0; }
      if c + 1 < num && nodes[c].priority > nodes[c + 1].priority { c := c + 1; }
    }

    /** swHeap_percolate_down. */
    method PercolateDown(start: nat)
      requires 1 <= num <= nodes.Length && OrderedDown(nodes[..num], start) && PlacedBut(nodes[..num], position, start)
      modifies this`position, nodes
      ensures Valid() && Contents() == old(Contents())
      ensures start >= 2 ==> nodes[1] == old(nodes[1])
    {
      hide Ordered, OrderedDown, PlacedBut, Placed, Elements, IsLeastChild;
      OrderedDownRange(nodes[..num], start);
      var moving, i := nodes[start], start;
      ghost var v := nodes[..num];
      var c := LeastChild(i);
      LeastChildRange(v, i, c);
      while c != 0 && moving.priority > nodes[c].priority
        invariant 1 <= start <= i < num && num == old(num) && |v| == num
        invariant v[i] == moving && nodes[..num][i := moving] == v
        invariant OrderedDown(v, i) && PlacedBut(v, position, i) && Elements(v) == old(Contents())
        invariant start >= 2 ==> v[1] == old(nodes[1])
        invariant (c == 0 || i < c < num) && IsLeastChild(v, i, c)
        decreases num - i
      {
        ghost var was := nodes[..num];
        Shifted(was, v, i, c, moving);
        Descend(v, position, i, c);
        nodes[i] := nodes[c];
        assert nodes[..num] == was[i := was[c]];
        position := position[nodes[i].id := i];
        v := Swap(v, i, c);
        i := c;
        c := LeastChild(i);
        LeastChildSame(nodes[..num], i, c, moving);
        LeastChildRange(v, i, c);
      }
      if c != 0 { assert v[c] == nodes[c]; }
      Settle(v, i, c);
      PlaceLast(v, position, i);
      nodes[i] := moving;
      position := position[moving.id := i];
      assert nodes[..num] == v;
    }

    /** `id` is a node of this heap. */
    ghost predicate Has(id: nat)
      reads this, nodes
      requires Valid()
    {
      id in position && 1 <= position[id] < num && nodes[position[id]].id == id
    }

    ghost function NodeOf(id: nat): Node
      reads this, nodes
      requires Valid() && Has(id)
    {
      nodes[position[id]]
    }

    /** Exactly the nodes of the contents are found. */
    lemma HasIffElement(id: nat)
      requires Valid()
      ensures Has(id) <==> exists n :: n in Contents() && n.id == id
      ensures Has(id) ==> NodeOf(id) in Contents()
    {
      var s := nodes[..num];
      if Has(id) {
        assert s[1..][position[id] - 1] == NodeOf(id);
        assert NodeOf(id) in s[1..];
      }
      if n :| n in Contents() && n.id == id {
        assert n in s[1..];
        var k :| 0 <= k < |s[1..]| && s[1..][k] == n;
        assert s[k + 1] == n;
      }
    }

    method Grow()
      requires Valid() && num == nodes.Length
      modifies this`nodes
      ensures Valid() && fresh(nodes) && nodes.Length == 2 * old(nodes.Length)
      ensures nodes[..num] == old(nodes[..num])
    {
      var bigger := new Node[2 * nodes.Length](_ => Node(0, 0));
      forall k | 0 <= k < num {
        bigger[k] := nodes[k];
      }
      assert bigger[..num] == nodes[..num];
      nodes := bigger;
    }

    /** swHeap_push. */
    method Push(id: nat, priority: int)
      requires Valid() && !Has(id)
      modifies this, nodes
      ensures Valid() && (nodes == old(nodes) || fresh(nodes)) && num == old(num) + 1
      ensures Contents() == old(Contents()) + multiset{Node(id, priority)}
      ensures old(num) > 1 && priority >= old(nodes[1]).priority ==> nodes[1] == old(nodes[1])
    {
      hide Ordered, OrderedUp, PlacedBut, Placed, Elements;
      ghost var s := nodes[..num];
      if num >= nodes.Length { Grow(); }
      nodes[num] := Node(id, priority);
      num := num + 1;
      assert nodes[..num] == s + [Node(id, priority)];
      SnocOrdered(s, Node(id, priority), position);
      BubbleUp(num - 1);
    }

    /** swHeap_change_priority. */
    method ChangePriority(id: nat, priority: int)
      requires Valid() && Has(id)
      modifies this`position, nodes
      ensures Valid() && num == old(num)
      ensures Contents() == old(Contents()) - multiset{old(NodeOf(id))} + multiset{Node(id, priority)}
    {
      hide Ordered, OrderedUp, OrderedDown, PlacedBut, Placed, Elements;
      ghost var s := nodes[..num];
      var pos := position[id];
      var oldPriority := nodes[pos].priority;
      nodes[pos] := Node(id, priority);
      assert nodes[..num] == s[pos := Node(id, priority)];
      Replaced(s, position, pos, Node(id, priority));
      UpdateElements(s, pos, Node(id, priority));
      if oldPriority > priority {
        BubbleUp(pos);
      } else {
        PercolateDown(pos);
      }
    }

    /** swHeap_remove. The root stays unless it is the node removed. */
    method Remove(id: nat)
      requires Valid() && Has(id)
      modifies this`num, this`position, nodes
      ensures Valid() && num == old(num) - 1
      ensures Contents() == old(Contents()) - multiset{old(NodeOf(id))}
      ensures old(nodes[1]).id != id ==> num > 1 && nodes[1] == old(nodes[1])
    {
      hide Ordered, OrderedUp, OrderedDown, PlacedBut, Placed, Elements;
      ghost var s := nodes[..num];
      var pos := position[id];
      var node := nodes[pos];
      num := num - 1;
      var last := nodes[num];
      nodes[pos] := last;
      RemovedLast(s, position, pos);
      if pos < num {
        assert nodes[..num] == s[..num][pos := last];
        if node.priority > last.priority {
          RootLeast(s, pos, last);
          BubbleUp(pos);
        } else {
          PercolateDown(pos);
        }
      } else {
        assert nodes[..num] == s[..num];
      }
    }

    /** swHeap_pop. */
    method Pop() returns (id: nat)
      requires Valid() && num > 1
      modifies this`num, this`position, nodes
      ensures Valid() && num == old(num) - 1 && id == old(nodes[1]).id
      ensures Contents() == old(Contents()) - multiset{old(nodes[1])}
    {
      hide Ordered, OrderedUp, OrderedDown, PlacedBut, Placed, Elements;
      ghost var s := nodes[..num];
      id := nodes[1].id;
      num := num - 1;
      var last := nodes[num];
      nodes[1] := last;
      RemovedLast(s, position, 1);
      if 1 < num {
        assert nodes[..num] == s[..num][1 := last];
        RootLeast(s, 1, last);
        PercolateDown(1);
      } else {
        assert nodes[..num] == s[..num];
      }
    }

    /** The root is a least node. */
    lemma TopIsLeast(n: Node)
      requires Valid() && num > 1 && n in Contents()
      ensures nodes[1] in Contents() && nodes[1].priority <= n.priority
    {
      var s := nodes[..num];
      assert n in s[1..];
      var k :| 0 <= k < |s[1..]| && s[1..][k] == n;
      RootIsLeast(s, k + 1);
      assert s[1..][0] == nodes[1];
    }
  }

  lemma OrderedDownRange(s: seq<Node>, i: nat)
    requires OrderedDown(s, i)
    ensures 1 <= i < |s|
  {
  }

  /** A new node behind the last. */
  lemma SnocOrdered(s: seq<Node>, n: Node, pos: map<nat, nat>)
    requires |s| >= 1 && Ordered(s) && Placed(s, pos)
    requires !(n.id in pos && 1 <= pos[n.id] < |s| && s[pos[n.id]].id == n.id)
    ensures OrderedUp(s + [n], |s|) && PlacedBut(s + [n], pos, |s|)
    ensures Elements(s + [n]) == Elements(s) + multiset{n}
  {
    assert (s + [n])[1..] == s[1..] + [n];
  }

  /** One node replaced by another of the same id. */
  lemma Replaced(s: seq<Node>, pos: map<nat, nat>, i: nat, n: Node)
    requires 1 <= i < |s| && Ordered(s) && Placed(s, pos) && n.id == s[i].id
    ensures PlacedBut(s[i := n], pos, i)
    ensures n.priority < s[i].priority ==> OrderedUp(s[i := n], i)
    ensures n.priority >= s[i].priority ==> OrderedDown(s[i := n], i)
  {
    forall k | 2 <= k < |s| && k / 2 == i && i >= 2 ensures s[i / 2].priority <= s[k].priority {
      assert s[i / 2].priority <= s[i].priority <= s[k].priority;
    }
  }

  /** The node at `i` replaced by the last one, which is taken off. */
  lemma RemovedLast(s: seq<Node>, pos: map<nat, nat>, i: nat)
    requires 1 <= i < |s| && Ordered(s) && Placed(s, pos)
    ensures var n, last := |s| - 1, s[|s| - 1];
            && (i < n ==>
                 && PlacedBut(s[..n][i := last], pos, i)
                 && (s[i].priority > last.priority ==> OrderedUp(s[..n][i := last], i))
                 && (s[i].priority <= last.priority ==> OrderedDown(s[..n][i := last], i))
                 && Elements(s[..n][i := last]) == Elements(s) - multiset{s[i]})
            && (i == n ==> Ordered(s[..n]) && Placed(s[..n], pos) && Elements(s[..n]) == Elements(s) - multiset{s[i]})
  {
    hide Ordered, OrderedUp, OrderedDown, Placed, PlacedBut, Elements;
    var n := |s| - 1;
    RemovedElements(s, i);
    RemovedPlaced(s, pos, i);
    if i < n {
      RemovedOrdered(s, i);
    } else {
      PrefixOrdered(s);
    }
  }

  lemma PrefixOrdered(s: seq<Node>)
    requires |s| > 1 && Ordered(s)
    ensures Ordered(s[..|s| - 1])
  {
  }

  lemma RemovedElements(s: seq<Node>, i: nat)
    requires 1 <= i < |s|
    ensures var n, last := |s| - 1, s[|s| - 1];
            && (i < n ==> Elements(s[..n][i := last]) == Elements(s) - multiset{s[i]})
            && (i == n ==> Elements(s[..n]) == Elements(s) - multiset{s[i]})
  {
    var n, last := |s| - 1, s[|s| - 1];
    assert s[1..] == s[..n][1..] + [last];
    if i < n {
      assert s[..n][1..][i - 1] == s[i];
      UpdateElements(s[..n], i, last);
    }
  }

  lemma RemovedPlaced(s: seq<Node>, pos: map<nat, nat>, i: nat)
    requires 1 <= i < |s| && Placed(s, pos)
    ensures i < |s| - 1 ==> PlacedBut(s[..|s| - 1][i := s[|s| - 1]], pos, i)
    ensures Placed(s[..|s| - 1], pos)
  {
  }

  lemma RemovedOrdered(s: seq<Node>, i: nat)
    requires 1 <= i < |s| - 1 && Ordered(s)
    ensures var n, last := |s| - 1, s[|s| - 1];
            && (s[i].priority > last.priority ==> OrderedUp(s[..n][i := last], i))
            && (s[i].priority <= last.priority ==> OrderedDown(s[..n][i := last], i))
  {
    var t := s[..|s| - 1];
    forall k | 2 <= k < |t| && k / 2 == i && i >= 2 ensures t[i / 2].priority <= t[k].priority {
      assert s[i / 2].priority <= s[i].priority <= s[k].priority;
    }
  }

  lemma RootLeast(s: seq<Node>, i: nat, last: Node)
    requires Ordered(s) && 1 <= i < |s| && last == s[|s| - 1]
    ensures s[1].priority <= last.priority
  {
    RootIsLeast(s, |s| - 1);
  }

  lemma OrderedUpRange(s: seq<Node>, i: nat)
    requires OrderedUp(s, i)
    ensures 1 <= i < |s|
  {
  }

  lemma UpKeepsRoot(v: seq<Node>, i: nat, root: Node)
    requires OrderedUp(v, i) && i >= 2 && v[1] == root
    requires v[i].priority >= root.priority && v[i / 2].priority > v[i].priority
    ensures i / 2 >= 2 && Swap(v, i, i / 2)[1] == root
  {
  }
}
