/** The NodeManager of NodeManager.h: a depth-first walk over the tree fills one array with
    the nodes of each level in breadth-first order. */
module NodeManagers {
  import opened Sequences

  /** A node with its level, its offset in the grid, and its child nodes in iteration order. */
  datatype Node = Node(level: nat, off: int, children: seq<Node>)

  /** All nodes of one level, with children one level below; leaves have none. */
  ghost predicate AllAt(ns: seq<Node>, level: nat) {
    forall k | 0 <= k < |ns| :: ns[k].level == level && Proper(ns[k])
  }

  ghost predicate Proper(n: Node) {
    if n.level == 0 then n.children == [] else AllAt(n.children, n.level - 1)
  }

  function Kids(ns: seq<Node>): seq<Node> {
    if ns == [] then [] else Kids(ns[..|ns| - 1]) + ns[|ns| - 1].children
  }

  function Offs(ns: seq<Node>): (r: seq<int>)
    ensures |r| == |ns| && forall k | 0 <= k < |ns| :: r[k] == ns[k].off
  {
    seq(|ns|, k requires 0 <= k < |ns| => ns[k].off)
  }

  /** The nodes of a level below nodes of level `top`. */
  function Level(ns: seq<Node>, top: nat, level: nat): seq<Node>
    requires level <= top
    decreases top
  {
    if top == level then ns else Level(Kids(ns), top - 1, level)
  }

  lemma {:induction false} KidsConcat(a: seq<Node>, b: seq<Node>)
    ensures Kids(a + b) == Kids(a) + Kids(b)
    decreases |b|
  {
    if b == [] {
      assert a + b == a;
    } else {
      var front, last := b[..|b| - 1], b[|b| - 1];
      KidsConcat(a, front);
      assert (a + b)[..|a + b| - 1] == a + front && (a + b)[|a + b| - 1] == last;
    }
  }

  lemma {:induction false} LevelConcat(a: seq<Node>, b: seq<Node>, top: nat, level: nat)
    requires level <= top
    ensures Level(a + b, top, level) == Level(a, top, level) + Level(b, top, level)
    decreases top
  {
    if top > level {
      KidsConcat(a, b);
      LevelConcat(Kids(a), Kids(b), top - 1, level);
    }
  }

  lemma {:induction false} KidsAllAt(ns: seq<Node>, level: nat)
    requires level > 0 && AllAt(ns, level)
    ensures AllAt(Kids(ns), level - 1)
    decreases |ns|
  {
    if ns != [] {
      var last := ns[|ns| - 1];
      KidsAllAt(ns[..|ns| - 1], level);
      assert last.level == level && Proper(last);
      assert AllAt(last.children, level - 1);
    }
  }

  lemma {:induction false} LeavesHaveNoKids(ns: seq<Node>)
    requires AllAt(ns, 0)
    ensures Kids(ns) == []
    decreases |ns|
  {
    if ns != [] {
      LeavesHaveNoKids(ns[..|ns| - 1]);
      assert Proper(ns[|ns| - 1]);
    }
  }

  /* ---- depth first ---- */

  /** The depth-first walk. */
  function DepthFirst(ns: seq<Node>): seq<Node>
    decreases ns
  {
    if ns == [] then [] else [ns[0]] + DepthFirst(ns[0].children) + DepthFirst(ns[1..])
  }

  /** The part of a walk on one level. */
  function AtLevel(walk: seq<Node>, level: nat): seq<Node> {
    if walk == [] then []
    else (if walk[0].level == level then [walk[0]] else []) + AtLevel(walk[1..], level)
  }

  lemma {:induction false} AtLevelConcat(a: seq<Node>, b: seq<Node>, level: nat)
    ensures AtLevel(a + b, level) == AtLevel(a, level) + AtLevel(b, level)
    decreases |a|
  {
    if a == [] {
      assert a + b == b;
    } else {
      AtLevelConcat(a[1..], b, level);
      assert (a + b)[1..] == a[1..] + b;
      Regroup(if a[0].level == level then [a[0]] else [], AtLevel(a[1..], level), AtLevel(b, level));
    }
  }

  /** The walk meets the nodes of each level in the order of that level. */
  lemma {:induction false} DepthFirstByLevel(ns: seq<Node>, top: nat, level: nat)
    requires level <= top && AllAt(ns, top)
    ensures AtLevel(DepthFirst(ns), level) == Level(ns, top, level)
    decreases ns
  {
    if ns == [] {
      NothingBelow(top, level);
    } else {
      var n, rest := ns[0], ns[1..];
      FirstOfAll(ns, top);
      assert ns == [n] + rest;
      DepthFirstByLevel(rest, top, level);
      if top > level {
        DepthFirstByLevel(n.children, top - 1, level);
        BelowTop(n, rest, DepthFirst(n.children), DepthFirst(rest), top, level);
      } else {
        LowerLevels(n, level);
        SplitWalk(n, DepthFirst(n.children), DepthFirst(rest), level);
      }
    }
  }

  /** A level below the top: the first node contributes through its children. */
  lemma {:induction false} BelowTop(n: Node, rest: seq<Node>, below: seq<Node>, after: seq<Node>, top: nat, level: nat)
    requires n.level == top > level
    requires AtLevel(below, level) == Level(n.children, top - 1, level) &&
             AtLevel(after, level) == Level(rest, top, level)
    ensures AtLevel([n] + below + after, level) == Level([n] + rest, top, level)
  {
    SplitWalk(n, below, after, level);
    FirstKids(n, rest);
    LevelConcat(n.children, Kids(rest), top - 1, level);
    assert Level([n] + rest, top, level) == Level(n.children + Kids(rest), top - 1, level);
    assert Level(rest, top, level) == Level(Kids(rest), top - 1, level);
    assert [] + AtLevel(below, level) == AtLevel(below, level);
  }

  lemma {:induction false} FirstOfAll(ns: seq<Node>, top: nat)
    requires ns != [] && AllAt(ns, top)
    ensures ns[0].level == top && Proper(ns[0]) && AllAt(ns[1..], top)
    ensures top > 0 ==> AllAt(ns[0].children, top - 1)
  {
    assert ns[0].level == top && Proper(ns[0]);
  }

  lemma {:induction false} FirstKids(n: Node, rest: seq<Node>)
    ensures Kids([n] + rest) == n.children + Kids(rest)
  {
    KidsOfOne(n);
    KidsConcat([n], rest);
  }

  lemma {:induction false} SplitWalk(n: Node, below: seq<Node>, after: seq<Node>, level: nat)
    ensures AtLevel([n] + below + after, level)
            == (if n.level == level then [n] else []) + AtLevel(below, level) + AtLevel(after, level)
  {
    AtLevelConcat([n] + below, after, level);
    AtLevelConcat([n], below, level);
    AtLevelOne(n, level);
  }

  lemma {:induction false} AtLevelOne(n: Node, level: nat)
    ensures AtLevel([n], level) == if n.level == level then [n] else []
  {
    assert [n][1..] == [];
  }

  lemma {:induction false} KidsOfOne(n: Node)
    ensures Kids([n]) == n.children
  {
    assert [n][..0] == [];
  }

  lemma {:induction false} NothingBelow(top: nat, level: nat)
    requires level <= top
    ensures Level([], top, level) == []
    decreases top
  {
    if top > level {
      NothingBelow(top - 1, level);
    }
  }

  lemma {:induction false} LowerLevels(n: Node, level: nat)
    requires Proper(n) && n.level == level
    ensures AtLevel(DepthFirst(n.children), level) == []
  {
    if level > 0 {
      NoneAtLevel(n.children, level - 1, level);
    }
  }

  lemma {:induction false} NoneAtLevel(ns: seq<Node>, top: nat, level: nat)
    requires top < level && AllAt(ns, top)
    ensures AtLevel(DepthFirst(ns), level) == []
    decreases ns
  {
    if ns != [] {
      var n, rest := ns[0], ns[1..];
      assert Proper(n) && AllAt(rest, top);
      AtLevelConcat([n] + DepthFirst(n.children), DepthFirst(rest), level);
      AtLevelConcat([n], DepthFirst(n.children), level);
      NoneAtLevel(rest, top, level);
      if top > 0 {
        NoneAtLevel(n.children, top - 1, level);
      }
    }
  }

  /* ---- breadth first ---- */

  function Count(ns: seq<Node>): nat
    decreases ns
  {
    if ns == [] then 0 else 1 + Count(ns[0].children) + Count(ns[1..])
  }

  lemma {:induction false} CountConcat(a: seq<Node>, b: seq<Node>)
    ensures Count(a + b) == Count(a) + Count(b)
    decreases |a|
  {
    if a == [] {
      assert a + b == b;
    } else {
      CountConcat(a[1..], b);
      assert (a + b)[1..] == a[1..] + b;
    }
  }

  /** The breadth-first walk with a queue. */
  function BreadthFirst(queue: seq<Node>): seq<Node>
    decreases Count(queue)
  {
    if queue == [] then []
    else
      CountConcat(queue[1..], queue[0].children);
      [queue[0]] + BreadthFirst(queue[1..] + queue[0].children)
  }

  lemma {:induction false} BreadthFirstLevel(a: seq<Node>, b: seq<Node>)
    ensures BreadthFirst(a + b) == a + BreadthFirst(b + Kids(a))
    decreases |a|
  {
    if a == [] {
      assert a + b == b && b + Kids(a) == b;
    } else {
      var n, rest := a[0], a[1..];
      assert (a + b)[0] == n && (a + b)[1..] == rest + b;
      assert rest + b + n.children == rest + (b + n.children);
      BreadthFirstLevel(rest, b + n.children);
      KidsConcat([n], rest);
      assert [n] + rest == a;
      KidsOfOne(n);
      assert b + n.children + Kids(rest) == b + (n.children + Kids(rest));
    }
  }

  /** Breadth first is level by level. */
  lemma {:induction false} BreadthFirstByLevels(uppers: seq<Node>)
    requires AllAt(uppers, 2)
    ensures BreadthFirst(uppers) == Level(uppers, 2, 2) + Level(uppers, 2, 1) + Level(uppers, 2, 0)
  {
    var lowers := Kids(uppers);
    var leaves := Kids(lowers);
    KidsAllAt(uppers, 2);
    KidsAllAt(lowers, 1);
    LeavesHaveNoKids(leaves);
    BreadthFirstOnly(uppers);
    BreadthFirstOnly(lowers);
    BreadthFirstOnly(leaves);
    assert Level(lowers, 1, 1) == lowers && Level(leaves, 0, 0) == leaves;
    assert leaves + BreadthFirst([]) == leaves;
  }

  lemma {:induction false} BreadthFirstOnly(a: seq<Node>)
    ensures BreadthFirst(a) == a + BreadthFirst(Kids(a))
  {
    BreadthFirstLevel(a, []);
    assert a + [] == a && [] + Kids(a) == Kids(a);
  }

  /* ---- building the manager ---- */

  /** sizeof(NodeManagerData). */
  const DATA_SIZE := 40

  /** A grid: the root's child nodes, and what its header says. */
  datatype Grid = Grid(uppers: seq<Node>, nodeCount: seq<nat>, fixedSize: bool, breadthFirst: bool,
                       firstNode: seq<int>, nodeSize: seq<int>) {
    /** The counts are those of the tree, and nodes of fixed size that are arranged breadth
        first lie back to back, level by level. */
    ghost predicate WellFormed() {
      && AllAt(uppers, 2) && |nodeCount| == |firstNode| == |nodeSize| == 3
      && (forall l | 0 <= l < 3 :: nodeCount[l] == |Level(uppers, 2, l)|)
      && (fixedSize && breadthFirst ==> forall l, i | 0 <= l < 3 && 0 <= i < nodeCount[l] ::
                                          Level(uppers, 2, l)[i].off == firstNode[l] + i * nodeSize[l])
    }

    predicate IsLinear() {
      fixedSize && breadthFirst
    }

    /** NodeManager::memUsage. */
    function MemUsage(): nat
      requires |nodeCount| == 3
    {
      DATA_SIZE + if IsLinear() then 0 else 8 * (nodeCount[0] + nodeCount[1] + nodeCount[2])
    }
  }

  /** The cursors of one level of the array: `done` offsets are in place from `start`. */
  ghost predicate Filled(a: array<int>, start: nat, at: nat, done: seq<Node>)
    reads a
  {
    start <= at <= a.Length && a[start..at] == Offs(done)
  }

  lemma {:induction false} OffsAppend(ns: seq<Node>, n: Node)
    ensures Offs(ns + [n]) == Offs(ns) + [n.off]
  {
  }

  /** The innermost loop. */
  method InsertLeaves(leaves: seq<Node>, a: array<int>, start: nat, at: nat, ghost done: seq<Node>) returns (ptr0: nat)
    requires Filled(a, start, at, done) && at + |leaves| <= a.Length
    modifies a
    ensures ptr0 == at + |leaves| && Filled(a, start, ptr0, done + leaves)
    ensures forall k | 0 <= k < a.Length && !(at <= k < ptr0) :: a[k] == old(a[k])
  {
    ptr0 := at;
    assert done + leaves[..0] == done;
    for i := 0 to |leaves|
      invariant ptr0 == at + i && Filled(a, start, ptr0, done + leaves[..i])
      invariant forall k | 0 <= k < a.Length && !(at <= k < ptr0) :: a[k] == old(a[k])
    {
      ghost var before := a[start..ptr0];
      a[ptr0] := leaves[i].off;
      ptr0 := ptr0 + 1;
      assert a[start..ptr0] == before + [leaves[i].off];
      OffsAppend(done + leaves[..i], leaves[i]);
      assert done + leaves[..i + 1] == done + leaves[..i] + [leaves[i]];
    }
    assert leaves[..|leaves|] == leaves;
  }

  lemma {:induction false} KidsGrow(ns: seq<Node>, i: nat)
    requires i <= |ns|
    ensures |Kids(ns[..i])| <= |Kids(ns)|
    ensures i < |ns| ==> Kids(ns[..i + 1]) == Kids(ns[..i]) + ns[i].children && |Kids(ns[..i + 1])| <= |Kids(ns)|
    decreases |ns| - i
  {
    if i < |ns| {
      assert ns[..i + 1][..i] == ns[..i];
      KidsGrow(ns, i + 1);
    } else {
      assert ns[..i] == ns;
    }
  }

  /** `*ptr++ = offset`. */
  method InsertOne(n: Node, a: array<int>, start: nat, at: nat, ghost done: seq<Node>)
    requires Filled(a, start, at, done) && at < a.Length
    modifies a
    ensures Filled(a, start, at + 1, done + [n])
    ensures forall k | 0 <= k < a.Length && k != at :: a[k] == old(a[k])
  {
    ghost var before := a[start..at];
    a[at] := n.off;
    assert a[start..at + 1] == before + [n.off];
    OffsAppend(done, n);
  }

  /** A lower node and its leaves. */
  method InsertLower(lower: Node, a: array<int>, s0: nat, s1: nat, at0: nat, at1: nat,
                     ghost done0: seq<Node>, ghost done1: seq<Node>) returns (ptr0: nat)
    requires at0 + |lower.children| <= s1 && at1 < a.Length
    requires Filled(a, s0, at0, done0) && Filled(a, s1, at1, done1)
    modifies a
    ensures ptr0 == at0 + |lower.children| && Filled(a, s0, ptr0, done0 + lower.children)
    ensures Filled(a, s1, at1 + 1, done1 + [lower])
    ensures forall k | at1 < k < a.Length :: a[k] == old(a[k])
  {
    InsertOne(lower, a, s1, at1, done1);
    assert a[s0..at0] == old(a[s0..at0]);
    ghost var segment := a[s1..at1 + 1];
    ptr0 := InsertLeaves(lower.children, a, s0, at0, done0);
    assert a[s1..at1 + 1] == segment;
  }

  lemma {:induction false} KidsNext(done0: seq<Node>, done1: seq<Node>, ns: seq<Node>, i: nat)
    requires i < |ns|
    ensures done0 + Kids(ns[..i]) + ns[i].children == done0 + Kids(ns[..i + 1])
    ensures done1 + ns[..i] + [ns[i]] == done1 + ns[..i + 1]
  {
    KidsGrow(ns, i);
  }

  /** The middle loop: the lower nodes of one upper node, and their leaves. */
  method InsertLowers(lowers: seq<Node>, a: array<int>, s0: nat, s1: nat, at0: nat, at1: nat,
                      ghost done0: seq<Node>, ghost done1: seq<Node>)
    returns (ptr0: nat, ptr1: nat)
    requires at0 + |Kids(lowers)| <= s1 && at1 + |lowers| <= a.Length
    requires Filled(a, s0, at0, done0) && Filled(a, s1, at1, done1)
    modifies a
    ensures ptr0 == at0 + |Kids(lowers)| && Filled(a, s0, ptr0, done0 + Kids(lowers))
    ensures ptr1 == at1 + |lowers| && Filled(a, s1, ptr1, done1 + lowers)
    ensures forall k | at1 + |lowers| <= k < a.Length :: a[k] == old(a[k])
  {
    ptr0, ptr1 := at0, at1;
    ghost var now0, now1 := done0, done1;
    assert lowers[..0] == [] && done0 + [] == done0 && done1 + [] == done1;
    for i := 0 to |lowers|
      invariant now0 == done0 + Kids(lowers[..i]) && now1 == done1 + lowers[..i]
      invariant ptr0 == at0 + |Kids(lowers[..i])| && Filled(a, s0, ptr0, now0)
      invariant ptr1 == at1 + i && Filled(a, s1, ptr1, now1)
      invariant forall k | at1 + |lowers| <= k < a.Length :: a[k] == old(a[k])
    {
      KidsGrow(lowers, i);
      KidsNext(done0, done1, lowers, i);
      ptr0 := InsertLower(lowers[i], a, s0, s1, ptr0, ptr1, now0, now1);
      ptr1 := ptr1 + 1;
      now0, now1 := now0 + lowers[i].children, now1 + [lowers[i]];
    }
    assert lowers[..|lowers|] == lowers;
  }

  /** What lies below the first upper nodes, for every number of them: l1[i] are the lower
      nodes and l0[i] the leaves below the first i. */
  ghost predicate Below(us: seq<Node>, l0: seq<seq<Node>>, l1: seq<seq<Node>>) {
    && |l0| == |l1| == |us| + 1 && l0[0] == l1[0] == []
    && (forall i | 0 <= i < |us| :: l1[i + 1] == l1[i] + us[i].children && l0[i + 1] == l0[i] + Kids(us[i].children))
    && (forall i | 0 <= i <= |us| :: |l0[i]| <= |l0[|us|]| && |l1[i]| <= |l1[|us|]|)
  }

  lemma {:induction false} BelowAll(us: seq<Node>) returns (l0: seq<seq<Node>>, l1: seq<seq<Node>>)
    ensures Below(us, l0, l1) && l0[|us|] == Kids(Kids(us)) && l1[|us|] == Kids(us)
  {
    if us == [] {
      l0, l1 := [[]], [[]];
    } else {
      var front, last := us[..|us| - 1], us[|us| - 1];
      l0, l1 := BelowAll(front);
      KidsConcat(Kids(front), last.children);
      BelowOneMore(front, l0, l1, last);
      assert us == front + [last];
      l0, l1 := l0 + [l0[|front|] + Kids(last.children)], l1 + [l1[|front|] + last.children];
    }
  }

  lemma {:induction false} BelowOneMore(us: seq<Node>, l0: seq<seq<Node>>, l1: seq<seq<Node>>, u: Node)
    requires Below(us, l0, l1)
    ensures Below(us + [u], l0 + [l0[|us|] + Kids(u.children)], l1 + [l1[|us|] + u.children])
  {
  }

  /** The outer loop: every level fills its own segment exactly. */
  method InsertUppers(us: seq<Node>, a: array<int>, s1: nat, s2: nat)
    requires s1 == |Kids(Kids(us))| && s2 == s1 + |Kids(us)| && a.Length == s2 + |us|
    modifies a
    ensures Filled(a, 0, s1, Kids(Kids(us))) && Filled(a, s1, s2, Kids(us)) && Filled(a, s2, a.Length, us)
  {
    ghost var l0, l1 := BelowAll(us);
    InsertLevels(us, a, s1, s2, l0, l1);
  }

  method InsertLevels(us: seq<Node>, a: array<int>, s1: nat, s2: nat, ghost l0: seq<seq<Node>>,
                      ghost l1: seq<seq<Node>>)
    requires Below(us, l0, l1) && s1 == |l0[|us|]| && s2 == s1 + |l1[|us|]| && a.Length == s2 + |us|
    modifies a
    ensures Filled(a, 0, s1, l0[|us|]) && Filled(a, s1, s2, l1[|us|]) && Filled(a, s2, a.Length, us)
  {
    var ptr0: nat, ptr1: nat, ptr2: nat := 0, s1, s2;
    assert us[..0] == [] && Offs([]) == [];
    for i := 0 to |us|
      invariant ptr0 == |l0[i]| && Filled(a, 0, ptr0, l0[i])
      invariant ptr1 == s1 + |l1[i]| && Filled(a, s1, ptr1, l1[i])
      invariant ptr2 == s2 + i && Filled(a, s2, ptr2, us[..i])
    {
      assert |l0[i + 1]| <= s1 && s1 + |l1[i + 1]| <= s2;
      TakeOneMore(us, i);
      ptr0, ptr1 := InsertUpper(us[i], a, s1, s2, ptr0, ptr1, ptr2, l0[i], l1[i], us[..i]);
      ptr2 := ptr2 + 1;
    }
    assert us[..|us|] == us;
  }

  lemma {:induction false} LevelsAreKids(us: seq<Node>)
    ensures Level(us, 2, 2) == us && Level(us, 2, 1) == Kids(us) && Level(us, 2, 0) == Kids(Kids(us))
  {
    assert Level(us, 2, 1) == Level(Kids(us), 1, 1);
    assert Level(us, 2, 0) == Level(Kids(us), 1, 0) == Level(Kids(Kids(us)), 0, 0);
  }

  /** An upper node and everything below it. */
  method InsertUpper(upper: Node, a: array<int>, s1: nat, s2: nat, at0: nat, at1: nat, at2: nat,
                     ghost done0: seq<Node>, ghost done1: seq<Node>, ghost done2: seq<Node>)
    returns (ptr0: nat, ptr1: nat)
    requires at0 + |Kids(upper.children)| <= s1 && at1 + |upper.children| <= s2 && at2 < a.Length
    requires Filled(a, 0, at0, done0) && Filled(a, s1, at1, done1) && Filled(a, s2, at2, done2)
    modifies a
    ensures ptr0 == at0 + |Kids(upper.children)| && Filled(a, 0, ptr0, done0 + Kids(upper.children))
    ensures ptr1 == at1 + |upper.children| && Filled(a, s1, ptr1, done1 + upper.children)
    ensures Filled(a, s2, at2 + 1, done2 + [upper])
  {
    InsertOne(upper, a, s2, at2, done2);
    assert a[0..at0] == old(a[0..at0]) && a[s1..at1] == old(a[s1..at1]);
    ghost var segment := a[s2..at2 + 1];
    ptr0, ptr1 := InsertLowers(upper.children, a, 0, s1, at0, at1, done0, done1);
    assert a[s2..at2 + 1] == segment;
  }

  /** The offsets of all nodes, level by level. */
  ghost function AllOffsets(us: seq<Node>): seq<int> {
    Offs(Level(us, 2, 0)) + Offs(Level(us, 2, 1)) + Offs(Level(us, 2, 2))
  }

  /** The array of a manager; none is needed in linear mode. */
  method CreateOffsets(grid: Grid) returns (a: array<int>)
    requires grid.WellFormed()
    ensures fresh(a) && a[..] == if grid.fixedSize && grid.breadthFirst then [] else AllOffsets(grid.uppers)
    ensures 40 + 8 * a.Length == grid.MemUsage()
  {
    if grid.IsLinear() {
      a := new int[0];
    } else {
      var p := grid.nodeCount;
      a := new int[p[0] + p[1] + p[2]];
      LevelsAreKids(grid.uppers);
      InsertUppers(grid.uppers, a, p[0], p[0] + p[1]);
      ThreeSegments(a[..], p[0], p[0] + p[1]);
      assert a[..][0..p[0]] == a[0..p[0]] && a[..][p[0]..p[0] + p[1]] == a[p[0]..p[0] + p[1]]
          && a[..][p[0] + p[1]..] == a[p[0] + p[1]..a.Length];
    }
  }

  lemma ThreeSegments(s: seq<int>, i: nat, j: nat)
    requires i <= j <= |s|
    ensures s == s[0..i] + s[i..j] + s[j..]
  {
  }

  class NodeManager {
    const grid: Grid
    const mLinear: bool
    const mOff: seq<int>
    const mPtr: seq<nat>
    const offsets: array<int>

    /** createNodeManager. */
    constructor (grid: Grid)
      requires grid.WellFormed()
      ensures this.grid == grid && Valid() && fresh(offsets)
      ensures 40 + 8 * offsets.Length == grid.MemUsage()
    {
      this.grid, mLinear, mOff := grid, grid.IsLinear(), grid.firstNode;
      mPtr := [0, grid.nodeCount[0], grid.nodeCount[0] + grid.nodeCount[1]];
      var a := CreateOffsets(grid);
      offsets := a;
    }

    /** The array holds the nodes of each level in breadth-first order, and nothing else. */
    ghost predicate Valid()
      reads offsets
    {
      && grid.WellFormed() && mLinear == grid.IsLinear() && mOff == grid.firstNode
      && mPtr == [0, grid.nodeCount[0], grid.nodeCount[0] + grid.nodeCount[1]]
      && offsets[..] == if mLinear then [] else AllOffsets(grid.uppers)
    }

    /** node<level>(i): the same i-th node of the level in both modes. */
    method NodeAt(level: nat, i: nat) returns (off: int)
      requires Valid() && level < 3 && i < grid.nodeCount[level]
      ensures off == Level(grid.uppers, 2, level)[i].off
    {
      if mLinear {
        off := mOff[level] + i * grid.nodeSize[level];
      } else {
        off := offsets[mPtr[level] + i];
        assert off == offsets[..][mPtr[level] + i];
      }
    }
  }
}
