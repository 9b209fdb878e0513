/**
 * The breadth-first solver behind the maze's cheat mode and the
 * reconstruction of the highlighted path from the solver's parent links.
 *
 * Every search node the solver creates is kept in `nodes`, in creation order;
 * a node's parent is the position of its parent node in that sequence.  The
 * FIFO queue is always the suffix `nodes[head..]`: pushing appends a node and
 * shifting the queue advances `head`.
 */
module Solver {
  import opened Wrappers
  import opened Grid

  /** A search node: a cell index and the node it was reached from (None for the start). */
  datatype Node = Node(idx: int, parent: Option<nat>)

  // ---------------------------------------------------------------------------
  // Walks over the maze
  // ---------------------------------------------------------------------------

  /** Consecutive cells of `w` are one solver move apart. */
  ghost predicate IsWalk(data: seq<Cell>, width: int, w: seq<int>) {
    forall i :: 0 <= i < |w| - 1 ==> Adjacent(data, width, w[i], w[i + 1])
  }

  /** `w` lists the cells of a walk from `a` to `b`, both included. */
  ghost predicate IsRoute(data: seq<Cell>, width: int, a: int, b: int, w: seq<int>) {
    |w| > 0 && w[0] == a && w[|w| - 1] == b && IsWalk(data, width, w)
  }

  ghost predicate Reachable(data: seq<Cell>, width: int, a: int, b: int) {
    exists w :: IsRoute(data, width, a, b, w)
  }

  /** `w` is a route from `a` to `b` and no route between them has fewer cells. */
  ghost predicate IsShortestRoute(data: seq<Cell>, width: int, a: int, b: int, w: seq<int>) {
    IsRoute(data, width, a, b, w) &&
    forall v :: IsRoute(data, width, a, b, v) ==> |w| <= |v|
  }

  function Reverse(s: seq<int>): (r: seq<int>)
    ensures |r| == |s|
    ensures forall i :: 0 <= i < |s| ==> r[i] == s[|s| - 1 - i]
  {
    if s == [] then [] else Reverse(s[1..]) + [s[0]]
  }

  /**
   * What the highlighted path of cheat mode should be: when the end point is
   * reachable and not the pony's own cell, the path lists, farthest from the
   * start first, the cells strictly between the two ends of a shortest route;
   * otherwise nothing is highlighted.
   */
  ghost predicate InteriorOfShortestRoute(data: seq<Cell>, width: int, start: int, e: int, path: seq<int>) {
    if start != e && Reachable(data, width, start, e) then
      IsShortestRoute(data, width, start, e, [start] + Reverse(path) + [e])
    else
      path == []
  }

  // ---------------------------------------------------------------------------
  // Search trees and parent chains
  // ---------------------------------------------------------------------------

  /** Every parent link points to an earlier node, so following parents terminates. */
  predicate ParentsEarlier(nodes: seq<Node>) {
    forall k :: 0 <= k < |nodes| && nodes[k].parent.Some? ==> nodes[k].parent.value < k
  }

  /**
   * The cells of node `k` and of all its ancestors, nearest first: the chain
   * that the source walks through `node.parent`.
   */
  function Chain(nodes: seq<Node>, k: nat): (c: seq<int>)
    requires ParentsEarlier(nodes) && k < |nodes|
    ensures |c| >= 1 && c[0] == nodes[k].idx
    decreases k
  {
    match nodes[k].parent
    case None => [nodes[k].idx]
    case Some(p) => [nodes[k].idx] + Chain(nodes, p)
  }

  /**
   * The shape of the solver's node list: the first node is the start with no
   * parent; every other node is one legal move from its parent, which comes
   * earlier; all cells are on the grid and no cell occurs twice, so there are
   * at most as many nodes as cells.
   */
  ghost predicate SearchTree(data: seq<Cell>, width: int, start: int, nodes: seq<Node>) {
    && |nodes| >= 1
    && nodes[0] == Node(start, None)
    && ParentsEarlier(nodes)
    && (forall k :: 0 < k < |nodes| ==> nodes[k].parent.Some?)
    && (forall k :: 0 <= k < |nodes| ==> 0 <= nodes[k].idx < |data|)
    && (forall k, p :: 0 < k < |nodes| && 0 <= p < k && nodes[k].parent == Some(p) ==>
          Adjacent(data, width, nodes[p].idx, nodes[k].idx))
    && (forall i, j :: 0 <= i < j < |nodes| ==> nodes[i].idx != nodes[j].idx)
    && |nodes| <= |data|
  }

  /**
   * Which of the four moves leads from cell `p` to cell `c`, as its place in the
   * expansion order (0 west, 1 east, 2 south, 3 north).
   */
  function Rank(p: int, c: int, width: int): nat {
    if c == p - width then 3
    else if c == p + width then 2
    else if c == p + 1 then 1
    else 0
  }

  /**
   * Which move, as its place in the expansion order, leads from node `k`'s
   * parent to node `k`.
   */
  function ChildRank(width: int, nodes: seq<Node>, k: nat): nat
    requires ParentsEarlier(nodes) && k < |nodes| && nodes[k].parent.Some?
  {
    Rank(nodes[nodes[k].parent.value].idx, nodes[k].idx, width)
  }

  /**
   * The order a FIFO queue with a fixed expansion order produces: parents
   * never decrease along the node list, and the children of one parent follow
   * the order west, east, south, north.
   */
  ghost predicate ExpansionOrder(width: int, nodes: seq<Node>)
    requires ParentsEarlier(nodes)
  {
    && (forall i, j :: 0 < i < j < |nodes| && nodes[i].parent.Some? && nodes[j].parent.Some? ==>
          nodes[i].parent.value <= nodes[j].parent.value)
    && (forall i, j {:trigger ChildRank(width, nodes, i), ChildRank(width, nodes, j)} ::
          0 < i < j < |nodes| && nodes[i].parent.Some? && nodes[i].parent == nodes[j].parent ==>
          ChildRank(width, nodes, i) < ChildRank(width, nodes, j))
  }

  /** The cells of `s` other than `a` and `b`, in order. */
  function Without(s: seq<int>, a: int, b: int): (r: seq<int>)
    ensures forall x :: x in r <==> x in s && x != a && x != b
    ensures |r| <= |s|
  {
    if s == [] then []
    else (if s[0] == a || s[0] == b then [] else [s[0]]) + Without(s[1..], a, b)
  }

  // ---------------------------------------------------------------------------
  // The state of the search
  // ---------------------------------------------------------------------------

  /**
   * Node `k` has been expanded for the first `r` directions of the expansion
   * order: each open neighbour is on the grid, visited, and at most one level
   * deeper than node `k`.
   */
  ghost predicate Expanded(data: seq<Cell>, width: int, nodes: seq<Node>, level: seq<int>, k: nat, r: nat) {
    && k < |nodes| && 0 <= nodes[k].idx < |data| && |level| == |data|
    && forall d :: Order(d) < r && Open(data, width, nodes[k].idx, d) ==>
         && 0 <= Step(nodes[k].idx, d, width) < |data|
         && 0 <= level[Step(nodes[k].idx, d, width)] <= level[nodes[k].idx] + 1
  }

  /**
   * The search state after the first `done` nodes have been expanded.
   * `visited` is the source's list of visited cells; `level` gives each
   * visited cell the depth of its node (the number of moves from the start)
   * and -1 to every other cell.  Levels never decrease along the node list.
   */
  ghost predicate Searching(data: seq<Cell>, width: int, start: int, nodes: seq<Node>,
                            visited: seq<int>, level: seq<int>, done: nat)
  {
    && Bordered(data, width)
    && SearchTree(data, width, start, nodes)
    && ExpansionOrder(width, nodes)
    && VisitedList(nodes, visited)
    && Levels(data, start, nodes, visited, level)
    && done <= |nodes|
    && ExpandedBelow(data, width, nodes, level, done)
  }

  /** `visited` lists the cells of the nodes, in the same order. */
  ghost predicate VisitedList(nodes: seq<Node>, visited: seq<int>) {
    |visited| == |nodes| && forall k :: 0 <= k < |nodes| ==> visited[k] == nodes[k].idx
  }

  /**
   * `level` is -1 on unvisited cells; the start has level 0 and every other
   * node is one level below its parent; levels never decrease along the node list.
   */
  ghost predicate Levels(data: seq<Cell>, start: int, nodes: seq<Node>, visited: seq<int>, level: seq<int>) {
    && |level| == |data|
    && (forall c :: 0 <= c < |data| ==> (0 <= level[c] <==> c in visited))
    && 0 <= start < |data| && level[start] == 0
    && (forall k :: 0 <= k < |nodes| ==> 0 <= nodes[k].idx < |data|)
    && (forall k, p :: 0 < k < |nodes| && 0 <= p < k && nodes[k].parent == Some(p) ==>
          level[nodes[k].idx] == level[nodes[p].idx] + 1)
    && (forall i, j :: 0 <= i <= j < |nodes| ==> level[nodes[i].idx] <= level[nodes[j].idx])
  }

  /** The first `done` nodes are fully expanded. */
  ghost predicate ExpandedBelow(data: seq<Cell>, width: int, nodes: seq<Node>, level: seq<int>, done: nat) {
    forall k :: 0 <= k < done ==> Expanded(data, width, nodes, level, k, 4)
  }

  /** The newest node is at most one level deeper than node `f`. */
  ghost predicate Tail(data: seq<Cell>, nodes: seq<Node>, level: seq<int>, f: nat) {
    && f < |nodes| && |level| == |data|
    && 0 <= nodes[f].idx < |data| && 0 <= nodes[|nodes| - 1].idx < |data|
    && level[nodes[|nodes| - 1].idx] <= level[nodes[f].idx] + 1
  }

  /**
   * Every node has a parent before `f`, or has parent `f` and was reached by one of
   * the first `r` directions of the expansion order.
   */
  ghost predicate SiblingsBelow(width: int, nodes: seq<Node>, f: nat, r: nat) {
    forall k :: 0 < k < |nodes| ==>
      && nodes[k].parent.Some?
      && (nodes[k].parent.value < f ||
          (nodes[k].parent.value == f && f < |nodes| && Rank(nodes[f].idx, nodes[k].idx, width) < r))
  }

  /**
   * The state at the top of the queue loop, with `head` nodes dequeued: the
   * search state, the newest node at most one level below the front, no node
   * yet hung under the front, and no dequeued node for the end point `e`.
   */
  ghost predicate Queue(data: seq<Cell>, width: int, start: int, e: int, nodes: seq<Node>,
                        visited: seq<int>, level: seq<int>, head: nat)
  {
    && Searching(data, width, start, nodes, visited, level, head)
    && (head < |nodes| ==> Tail(data, nodes, level, head))
    && SiblingsBelow(width, nodes, head, 0)
    && (forall k :: 0 <= k < head ==> nodes[k].idx != e)
  }

  // ---------------------------------------------------------------------------
  // The search the source runs, as functions
  // ---------------------------------------------------------------------------

  /**
   * One branch of the expansion of node `f`: when the move in direction `d`
   * is open and its cell is not yet visited, the cell is added to the visited
   * list and a node for it, with parent `f`, is pushed; otherwise nothing
   * changes.
   */
  function Branch(data: seq<Cell>, width: int, nodes: seq<Node>, visited: seq<int>, f: nat, d: Direction)
    : (seq<Node>, seq<int>)
  {
    if f < |nodes| && 0 <= nodes[f].idx < |data| && Open(data, width, nodes[f].idx, d)
       && Step(nodes[f].idx, d, width) !in visited
    then (nodes + [Node(Step(nodes[f].idx, d, width), Some(f))], visited + [Step(nodes[f].idx, d, width)])
    else (nodes, visited)
  }

  /** The expansion of node `f`: its west, east, south and north branches, in that order. */
  function Expansion(data: seq<Cell>, width: int, nodes: seq<Node>, visited: seq<int>, f: nat)
    : (seq<Node>, seq<int>)
  {
    var (n1, v1) := Branch(data, width, nodes, visited, f, GoWest);
    var (n2, v2) := Branch(data, width, n1, v1, f, GoEast);
    var (n3, v3) := Branch(data, width, n2, v2, f, GoSouth);
    Branch(data, width, n3, v3, f, GoNorth)
  }

  /**
   * The queue loop from `head` on: it stops at the first front node for `e`
   * or when the queue is empty, and gives the node list and the position
   * where it stopped.  It also stops once `head` reaches the number of cells,
   * which bounds the recursion; the search never gets there, since no cell
   * is queued twice.
   */
  function Run(data: seq<Cell>, width: int, e: int, nodes: seq<Node>, visited: seq<int>, head: nat)
    : (seq<Node>, nat)
    decreases |data| - head
  {
    if head >= |data| || head >= |nodes| || nodes[head].idx == e then (nodes, head)
    else
      var (n, v) := Expansion(data, width, nodes, visited, head);
      Run(data, width, e, n, v, head + 1)
  }

  /** The whole search, from the start node alone. */
  function Bfs(data: seq<Cell>, width: int, start: int, e: int): (seq<Node>, nat) {
    Run(data, width, e, [Node(start, None)], [start], 0)
  }

  /** The node and visited lists once the first `k` nodes of the queue have been expanded. */
  function Rounds(data: seq<Cell>, width: int, start: int, k: nat): (seq<Node>, seq<int>) {
    if k == 0 then ([Node(start, None)], [start])
    else
      var (n, v) := Rounds(data, width, start, k - 1);
      Expansion(data, width, n, v, k - 1)
  }

  /**
   * `trace` lists the node and visited lists of the first `|data|` rounds:
   * the start node alone, then each entry the expansion of the previous one.
   */
  ghost predicate IsTrace(data: seq<Cell>, width: int, start: int, trace: seq<(seq<Node>, seq<int>)>) {
    && |trace| == |data| + 1
    && trace[0] == ([Node(start, None)], [start])
    && forall k {:trigger Expansion(data, width, trace[k].0, trace[k].1, k)} :: 0 <= k < |data| ==>
         trace[k + 1] == Expansion(data, width, trace[k].0, trace[k].1, k)
  }

  /** The rounds of the search, as a trace. */
  ghost function Trace(data: seq<Cell>, width: int, start: int): (trace: seq<(seq<Node>, seq<int>)>)
    ensures IsTrace(data, width, start, trace)
    ensures forall k :: 0 <= k < |trace| ==> trace[k] == Rounds(data, width, start, k)
  {
    seq(|data| + 1, k requires 0 <= k => Rounds(data, width, start, k))
  }

  /** A round of `Run` expands the front node and moves on to the next. */
  lemma RunRound(data: seq<Cell>, width: int, e: int, nodes: seq<Node>, visited: seq<int>,
                 head: nat, nodes': seq<Node>, visited': seq<int>)
    requires head < |data| && head < |nodes| && nodes[head].idx != e
    requires (nodes', visited') == Expansion(data, width, nodes, visited, head)
    ensures Run(data, width, e, nodes, visited, head) == Run(data, width, e, nodes', visited', head + 1)
  {
  }

  /** `Run` stops at a front node for `e` or at an empty queue. */
  lemma RunStops(data: seq<Cell>, width: int, e: int, nodes: seq<Node>, visited: seq<int>, head: nat)
    requires head >= |nodes| || nodes[head].idx == e
    ensures Run(data, width, e, nodes, visited, head) == (nodes, head)
  {
  }

  /** An expansion only appends nodes. */
  lemma ExpansionExtends(data: seq<Cell>, width: int, nodes: seq<Node>, visited: seq<int>, f: nat)
    ensures nodes <= Expansion(data, width, nodes, visited, f).0
  {
  }

  /** The node list of an earlier round is a prefix of that of a later one. */
  lemma {:induction false} RoundsPrefix(data: seq<Cell>, width: int, start: int, k: nat, h: nat)
    requires k <= h
    ensures Rounds(data, width, start, k).0 <= Rounds(data, width, start, h).0
    decreases h
  {
    if k < h {
      RoundsPrefix(data, width, start, k, h - 1);
      var (n, v) := Rounds(data, width, start, h - 1);
      ExpansionExtends(data, width, n, v, h - 1);
    }
  }

  /** Once the queue is empty, later rounds change nothing. */
  lemma {:induction false} RoundsStall(data: seq<Cell>, width: int, start: int, k: nat, h: nat)
    requires k <= h && |Rounds(data, width, start, k).0| <= k
    ensures Rounds(data, width, start, h) == Rounds(data, width, start, k)
    decreases h
  {
    if k < h {
      RoundsStall(data, width, start, k, h - 1);
    }
  }

  /**
   * While the queue is not empty at round `h`, it was not empty at any earlier
   * round `k`, and the front node of round `k` is node `k` of round `h`.
   */
  lemma RoundsFront(data: seq<Cell>, width: int, start: int, k: nat, h: nat)
    requires k < h <= |Rounds(data, width, start, h).0|
    ensures k < |Rounds(data, width, start, k).0|
    ensures Rounds(data, width, start, k).0[k] == Rounds(data, width, start, h).0[k]
  {
    if |Rounds(data, width, start, k).0| <= k {
      RoundsStall(data, width, start, k, h);
    }
    RoundsPrefix(data, width, start, k, h);
  }

  /**
   * When the first `h` rounds dequeue no node for `e` and the queue is not yet
   * empty at `h`, the queue loop from round `k` gets where the one from round
   * `h` gets.
   */
  lemma {:induction false} RunReplays(data: seq<Cell>, width: int, start: int, e: int, k: nat, h: nat)
    requires k <= h <= |data|
    requires h <= |Rounds(data, width, start, h).0|
    requires forall j :: 0 <= j < h ==> Rounds(data, width, start, h).0[j].idx != e
    ensures Run(data, width, e, Rounds(data, width, start, k).0, Rounds(data, width, start, k).1, k)
         == Run(data, width, e, Rounds(data, width, start, h).0, Rounds(data, width, start, h).1, h)
    decreases h - k
  {
    if k < h {
      ReplayStep(data, width, start, e, k, h);
      RunReplays(data, width, start, e, k + 1, h);
    }
  }

  /** One round of `RunReplays`: the loop from round `k` goes on to round `k + 1`. */
  lemma ReplayStep(data: seq<Cell>, width: int, start: int, e: int, k: nat, h: nat)
    requires k < h <= |data|
    requires h <= |Rounds(data, width, start, h).0|
    requires Rounds(data, width, start, h).0[k].idx != e
    ensures Run(data, width, e, Rounds(data, width, start, k).0, Rounds(data, width, start, k).1, k)
         == Run(data, width, e, Rounds(data, width, start, k + 1).0, Rounds(data, width, start, k + 1).1, k + 1)
  {
    RoundsFront(data, width, start, k, h);
    var (n, v) := Rounds(data, width, start, k);
    RunRound(data, width, e, n, v, k, Rounds(data, width, start, k + 1).0, Rounds(data, width, start, k + 1).1);
  }

  /** On a bordered maze the index difference of a move identifies its direction. */
  lemma RankOfStep(data: seq<Cell>, width: int, i: int, d: Direction)
    requires Bordered(data, width)
    requires 0 <= i < |data|
    requires Open(data, width, i, d)
    ensures Rank(i, Step(i, d, width), width) == Order(d)
  {
    if width == 1 {
      assert i % 1 == 0;
      if i + 1 < |data| {
        assert (i + 1) % 1 == 0;
      }
    }
  }

  /** No more distinct cells than the grid has. */
  lemma {:induction false} DistinctBound(s: seq<int>, n: int)
    requires forall i, j :: 0 <= i < j < |s| ==> s[i] != s[j]
    requires forall i :: 0 <= i < |s| ==> 0 <= s[i] < n
    requires n >= 0
    ensures |s| <= n
    decreases |s|
  {
    if |s| > 0 {
      var m := s[|s| - 1];
      // Drop the last element and rename the cell n - 1, if it occurs, to m.
      var t := seq(|s| - 1, i requires 0 <= i < |s| - 1 => if s[i] == n - 1 then m else s[i]);
      forall i, j | 0 <= i < j < |t| ensures t[i] != t[j] {
        assert s[i] != s[j] && s[i] != m && s[j] != m;
      }
      forall i | 0 <= i < |t| ensures 0 <= t[i] < n - 1 {
        assert s[i] != m;
      }
      DistinctBound(t, n - 1);
    }
  }

  /** Appends one node for the open, unvisited neighbour of node `f` in direction `d`. */
  method Push(data: seq<Cell>, width: int, start: int, nodes: seq<Node>, visited: seq<int>,
              ghost level: seq<int>, f: nat, d: Direction)
    returns (nodes': seq<Node>, visited': seq<int>, ghost level': seq<int>)
    requires Searching(data, width, start, nodes, visited, level, f)
    requires Tail(data, nodes, level, f)
    requires SiblingsBelow(width, nodes, f, Order(d))
    requires Expanded(data, width, nodes, level, f, Order(d))
    requires Open(data, width, nodes[f].idx, d) && Step(nodes[f].idx, d, width) !in visited
    ensures nodes' == nodes + [Node(Step(nodes[f].idx, d, width), Some(f))]
    ensures visited' == visited + [Step(nodes[f].idx, d, width)]
    ensures Searching(data, width, start, nodes', visited', level', f)
    ensures Tail(data, nodes', level', f)
    ensures SiblingsBelow(width, nodes', f, Order(d) + 1)
    ensures Expanded(data, width, nodes', level', f, Order(d) + 1)
  {
    var a := nodes[f].idx;
    var b := Step(a, d, width);
    OpenStaysOnGrid(data, width, a, d);
    RankOfStep(data, width, a, d);
    assert Adjacent(data, width, a, b);
    nodes' := nodes + [Node(b, Some(f))];
    visited' := visited + [b];
    level' := level[b := level[a] + 1];
    PushTree(data, width, start, nodes, visited, f, b, nodes', visited');
    PushOrder(width, nodes, f, b, Order(d), nodes');
    PushLevels(data, start, nodes, visited, level, f, b, nodes', visited', level');
    PushExpanded(data, width, nodes, level, f, b, d, nodes', level');
  }

  lemma PushTree(data: seq<Cell>, width: int, start: int, nodes: seq<Node>, visited: seq<int>, f: nat, b: int,
                  nodes': seq<Node>, visited': seq<int>)
    requires SearchTree(data, width, start, nodes)
    requires VisitedList(nodes, visited)
    requires f < |nodes| && Adjacent(data, width, nodes[f].idx, b) && 0 <= b < |data| && b !in visited
    requires nodes' == nodes + [Node(b, Some(f))] && visited' == visited + [b]
    ensures SearchTree(data, width, start, nodes')
    ensures VisitedList(nodes', visited')
  {
    forall i, j | 0 <= i < j < |visited'| ensures visited'[i] != visited'[j] {
      if j < |visited| {
        assert visited[i] == nodes[i].idx && visited[j] == nodes[j].idx;
      } else {
        assert visited'[i] == visited[i];
      }
    }
    DistinctBound(visited', |data|);
    forall k, p | 0 < k < |nodes'| && 0 <= p < k && nodes'[k].parent == Some(p)
      ensures Adjacent(data, width, nodes'[p].idx, nodes'[k].idx)
    {
      if k < |nodes| {
        assert nodes'[k] == nodes[k] && nodes'[p] == nodes[p];
      }
    }
    forall i, j | 0 <= i < j < |nodes'| ensures nodes'[i].idx != nodes'[j].idx {
      assert visited'[i] != visited'[j];
    }
  }

  lemma PushOrder(width: int, nodes: seq<Node>, f: nat, b: int, r: nat, nodes': seq<Node>)
    requires ParentsEarlier(nodes) && ExpansionOrder(width, nodes)
    requires SiblingsBelow(width, nodes, f, r)
    requires f < |nodes| && Rank(nodes[f].idx, b, width) == r
    requires nodes' == nodes + [Node(b, Some(f))]
    ensures ParentsEarlier(nodes')
    ensures ExpansionOrder(width, nodes')
    ensures SiblingsBelow(width, nodes', f, r + 1)
  {
    assert ParentsEarlier(nodes');
    forall i, j | 0 < i < j < |nodes'| && nodes'[i].parent.Some? && nodes'[j].parent.Some?
      ensures nodes'[i].parent.value <= nodes'[j].parent.value
    {
      assert nodes'[i] == nodes[i];
      if j < |nodes| {
        assert nodes'[j] == nodes[j];
      }
    }
    forall i, j | 0 < i < j < |nodes'| && nodes'[i].parent.Some? && nodes'[i].parent == nodes'[j].parent
      ensures ChildRank(width, nodes', i) < ChildRank(width, nodes', j)
    {
      var p := nodes[i].parent.value;
      assert nodes'[i] == nodes[i] && nodes'[p] == nodes[p];
      if j < |nodes| {
        assert nodes'[j] == nodes[j];
        assert ChildRank(width, nodes, i) < ChildRank(width, nodes, j);
      }
    }
    forall k | 0 < k < |nodes'| ensures nodes'[k].parent.Some? && (nodes'[k].parent.value < f ||
          (nodes'[k].parent.value == f && f < |nodes'| && Rank(nodes'[f].idx, nodes'[k].idx, width) < r + 1))
    {
      if k < |nodes| {
        assert nodes'[k] == nodes[k];
      }
    }
  }

  lemma PushLevels(data: seq<Cell>, start: int, nodes: seq<Node>, visited: seq<int>, level: seq<int>, f: nat, b: int,
                    nodes': seq<Node>, visited': seq<int>, level': seq<int>)
    requires VisitedList(nodes, visited) && Levels(data, start, nodes, visited, level)
    requires f < |nodes| && level[nodes[|nodes| - 1].idx] <= level[nodes[f].idx] + 1
    requires 0 <= b < |data| && b !in visited
    requires nodes' == nodes + [Node(b, Some(f))] && visited' == visited + [b]
    requires level' == level[b := level[nodes[f].idx] + 1]
    ensures Levels(data, start, nodes', visited', level')
    ensures Tail(data, nodes', level', f)
  {
    forall k | 0 <= k < |nodes| ensures level'[nodes[k].idx] == level[nodes[k].idx] {
      assert nodes[k].idx in visited by {
        assert visited[k] == nodes[k].idx;
      }
    }
    assert level'[start] == 0 by {
      assert start in visited;
    }
    forall k, p | 0 < k < |nodes'| && 0 <= p < k && nodes'[k].parent == Some(p)
      ensures level'[nodes'[k].idx] == level'[nodes'[p].idx] + 1
    {
      if k < |nodes| {
        assert nodes'[k] == nodes[k] && nodes'[p] == nodes[p];
      } else {
        assert nodes'[p] == nodes[f];
      }
    }
    forall i, j | 0 <= i <= j < |nodes'| ensures level'[nodes'[i].idx] <= level'[nodes'[j].idx] {
      if j < |nodes| {
        assert nodes'[i] == nodes[i] && nodes'[j] == nodes[j];
      } else if i < |nodes| {
        assert nodes'[i] == nodes[i];
        assert level[nodes[i].idx] <= level[nodes[|nodes| - 1].idx];
      }
    }
    forall c | 0 <= c < |data| ensures (0 <= level'[c] <==> c in visited') {
      if c != b {
        assert c in visited' <==> c in visited;
      }
    }
  }

  lemma PushExpanded(data: seq<Cell>, width: int, nodes: seq<Node>, level: seq<int>, f: nat, b: int, d: Direction,
                      nodes': seq<Node>, level': seq<int>)
    requires f < |nodes| && |level| == |data| && 0 <= b < |data|
    requires forall k :: 0 <= k < |nodes| ==> 0 <= nodes[k].idx < |data|
    requires level[b] < 0
    requires ExpandedBelow(data, width, nodes, level, f)
    requires Expanded(data, width, nodes, level, f, Order(d))
    requires b == Step(nodes[f].idx, d, width) && level[nodes[f].idx] >= 0
    requires nodes' == nodes + [Node(b, Some(f))] && level' == level[b := level[nodes[f].idx] + 1]
    ensures ExpandedBelow(data, width, nodes', level', f)
    ensures Expanded(data, width, nodes', level', f, Order(d) + 1)
  {
    forall k | 0 <= k < f ensures Expanded(data, width, nodes', level', k, 4) {
      assert Expanded(data, width, nodes, level, k, 4);
      assert nodes'[k] == nodes[k];
    }
    assert nodes'[f] == nodes[f];
    assert Expanded(data, width, nodes', level', f, Order(d));
    ExpandedWiden(data, width, nodes', level', f, d);
  }

  /** Expansion by one more direction: the facts for direction `d` extend `Expanded` past it. */
  lemma ExpandedWiden(data: seq<Cell>, width: int, nodes: seq<Node>, level: seq<int>, k: nat, d: Direction)
    requires Expanded(data, width, nodes, level, k, Order(d))
    requires Open(data, width, nodes[k].idx, d) ==>
               && 0 <= Step(nodes[k].idx, d, width) < |data|
               && 0 <= level[Step(nodes[k].idx, d, width)] <= level[nodes[k].idx] + 1
    ensures Expanded(data, width, nodes, level, k, Order(d) + 1)
  {
    forall e | Order(e) < Order(d) + 1 && Open(data, width, nodes[k].idx, e)
      ensures 0 <= Step(nodes[k].idx, e, width) < |data|
      ensures 0 <= level[Step(nodes[k].idx, e, width)] <= level[nodes[k].idx] + 1
    {
      if Order(e) == Order(d) {
        assert e == d;
      }
    }
  }

  lemma SiblingsWiden(width: int, nodes: seq<Node>, f: nat, r: nat)
    requires SiblingsBelow(width, nodes, f, r)
    ensures SiblingsBelow(width, nodes, f, r + 1)
  {
  }

  /** Moves past direction `d` of node `f` when the source does not push a node for it. */
  lemma Skip(data: seq<Cell>, width: int, start: int, nodes: seq<Node>, visited: seq<int>,
             level: seq<int>, f: nat, d: Direction)
    requires Bordered(data, width) && VisitedList(nodes, visited) && Levels(data, start, nodes, visited, level)
    requires Tail(data, nodes, level, f)
    requires SiblingsBelow(width, nodes, f, Order(d))
    requires Expanded(data, width, nodes, level, f, Order(d))
    requires !Open(data, width, nodes[f].idx, d) || Step(nodes[f].idx, d, width) in visited
    ensures SiblingsBelow(width, nodes, f, Order(d) + 1)
    ensures Expanded(data, width, nodes, level, f, Order(d) + 1)
  {
    var a := nodes[f].idx;
    SiblingsWiden(width, nodes, f, Order(d));
    if Open(data, width, a, d) {
      var b := Step(a, d, width);
      OpenStaysOnGrid(data, width, a, d);
      var j :| 0 <= j < |visited| && visited[j] == b;
      assert nodes[j].idx == b;
      assert 0 <= level[b] <= level[nodes[|nodes| - 1].idx];
    }
    ExpandedWiden(data, width, nodes, level, f, d);
  }

  // ---------------------------------------------------------------------------
  // The solver
  // ---------------------------------------------------------------------------

  /**
   * Breadth-first search from `start` until a node for `endPoint` is dequeued.
   * Returns every node created and the position of the node found; when the
   * queue runs empty it returns the start node, at position 0.
   */
  method Solve(data: seq<Cell>, width: int, start: int, endPoint: int)
    returns (nodes: seq<Node>, found: nat)
    requires Bordered(data, width)
    requires 0 <= start < |data|
    ensures SearchTree(data, width, start, nodes) && ExpansionOrder(width, nodes)
    ensures found < |nodes|
    ensures nodes[found].idx == endPoint ==>
              forall w :: IsRoute(data, width, start, endPoint, w) ==> |Chain(nodes, found)| <= |w|
    ensures nodes[found].idx != endPoint ==> found == 0 && !Reachable(data, width, start, endPoint)
    ensures nodes == Bfs(data, width, start, endPoint).0
    ensures found == if Bfs(data, width, start, endPoint).1 < |nodes| then Bfs(data, width, start, endPoint).1 else 0
  {
    var visited, head;
    ghost var level;
    ghost var trace := Trace(data, width, start);
    nodes, visited, level, head := Search(data, width, start, endPoint, trace);
    RunReplays(data, width, start, endPoint, 0, head);
    RunStops(data, width, endPoint, nodes, visited, head);
    found := if head < |nodes| then head else 0;
    Finished(data, width, start, endPoint, nodes, visited, level, head, found);
  }

  /**
   * The queue loop of `Solve`.  Each round tests the front of the queue
   * before dequeuing it, which is the source's dequeue-then-return, since the
   * dequeued node is returned unchanged.  It stops with `head` at the node
   * for `endPoint`, or past the last node when the queue runs empty.
   */
  method Search(data: seq<Cell>, width: int, start: int, endPoint: int, ghost trace: seq<(seq<Node>, seq<int>)>)
    returns (nodes: seq<Node>, visited: seq<int>, ghost level: seq<int>, head: nat)
    requires Bordered(data, width)
    requires 0 <= start < |data|
    requires IsTrace(data, width, start, trace)
    ensures Queue(data, width, start, endPoint, nodes, visited, level, head)
    ensures head < |nodes| ==> nodes[head].idx == endPoint
    ensures trace[head] == (nodes, visited)
  {
    nodes := [Node(start, None)];
    visited := [start];
    level := StartLevels(|data|, start);
    Initial(data, width, start, endPoint, nodes, visited, level);
    head := 0;
    while head < |nodes| && nodes[head].idx != endPoint
      invariant Queue(data, width, start, endPoint, nodes, visited, level, head)
      invariant trace[head] == (nodes, visited)
      decreases |data| - head
    {
      nodes, visited, level := Expand(data, width, start, nodes, visited, level, head, endPoint, trace);
      head := head + 1;
    }
  }

  /**
   * What `Solve` promises once its loop stops, either at the node dequeued
   * for `endPoint` or with the queue empty.
   */
  lemma Finished(data: seq<Cell>, width: int, start: int, endPoint: int, nodes: seq<Node>,
                 visited: seq<int>, level: seq<int>, head: nat, found: nat)
    requires Searching(data, width, start, nodes, visited, level, head)
    requires forall k :: 0 <= k < head ==> nodes[k].idx != endPoint
    requires head < |nodes| ==> nodes[head].idx == endPoint
    requires found == if head < |nodes| then head else 0
    ensures SearchTree(data, width, start, nodes) && ExpansionOrder(width, nodes)
    ensures found < |nodes|
    ensures nodes[found].idx == endPoint ==>
              forall w :: IsRoute(data, width, start, endPoint, w) ==> |Chain(nodes, found)| <= |w|
    ensures nodes[found].idx != endPoint ==> found == 0 && !Reachable(data, width, start, endPoint)
  {
    if head < |nodes| {
      FoundIsShortest(data, width, start, nodes, visited, level, found);
    } else {
      NoRoute(data, width, start, endPoint, nodes, visited, level);
    }
  }

  /** Level 0 for the start cell and -1 (not visited) for every other cell. */
  ghost function StartLevels(n: nat, start: int): (level: seq<int>)
    ensures |level| == n && forall c :: 0 <= c < n ==> level[c] == if c == start then 0 else -1
  {
    seq(n, c => if c == start then 0 else -1)
  }

  /** The queue holding the start node alone. */
  lemma Initial(data: seq<Cell>, width: int, start: int, e: int, nodes: seq<Node>, visited: seq<int>,
                level: seq<int>)
    requires Bordered(data, width) && 0 <= start < |data|
    requires nodes == [Node(start, None)] && visited == [start]
    requires level == StartLevels(|data|, start)
    ensures Queue(data, width, start, e, nodes, visited, level, 0)
  {
    assert |nodes| <= |data|;
    forall c | 0 <= c < |data| ensures (0 <= level[c] <==> c in visited) {
    }
  }

  /**
   * Expands node `f`, the node just taken off the queue: its west, east, south
   * and north neighbours, in that order, are pushed when the move is open and
   * the cell is not yet visited.  With the lists at entry `f` of a trace, the
   * new lists are its entry `f + 1`, which is `Expansion` of the old ones.
   */
  method Expand(data: seq<Cell>, width: int, start: int, nodes: seq<Node>, visited: seq<int>,
                ghost level: seq<int>, f: nat, ghost e: int, ghost trace: seq<(seq<Node>, seq<int>)>)
    returns (nodes': seq<Node>, visited': seq<int>, ghost level': seq<int>)
    requires Queue(data, width, start, e, nodes, visited, level, f)
    requires f < |nodes| && nodes[f].idx != e
    requires IsTrace(data, width, start, trace) && trace[f] == (nodes, visited)
    ensures Queue(data, width, start, e, nodes', visited', level', f + 1)
    ensures trace[f + 1] == (nodes', visited')
  {
    assert Expanded(data, width, nodes, level, f, 0);
    var n1, v1, l1 := Visit(data, width, start, nodes, visited, level, f, GoWest, e);
    var n2, v2, l2 := Visit(data, width, start, n1, v1, l1, f, GoEast, e);
    var n3, v3, l3 := Visit(data, width, start, n2, v2, l2, f, GoSouth, e);
    nodes', visited', level' := Visit(data, width, start, n3, v3, l3, f, GoNorth, e);
    Advance(data, width, start, nodes', visited', level', f);
    assert (nodes', visited') == Expansion(data, width, nodes, visited, f);
  }

  /**
   * One of the four branches of the expansion of node `f`: when the move in
   * direction `d` is open and its cell is not yet visited, the cell is added to
   * the visited list and a node for it is pushed onto the queue.
   */
  method Visit(data: seq<Cell>, width: int, start: int, nodes: seq<Node>, visited: seq<int>,
               ghost level: seq<int>, f: nat, d: Direction, ghost e: int)
    returns (nodes': seq<Node>, visited': seq<int>, ghost level': seq<int>)
    requires Searching(data, width, start, nodes, visited, level, f)
    requires Tail(data, nodes, level, f)
    requires SiblingsBelow(width, nodes, f, Order(d))
    requires Expanded(data, width, nodes, level, f, Order(d))
    requires forall k :: 0 <= k <= f ==> nodes[k].idx != e
    ensures Searching(data, width, start, nodes', visited', level', f)
    ensures Tail(data, nodes', level', f)
    ensures SiblingsBelow(width, nodes', f, Order(d) + 1)
    ensures Expanded(data, width, nodes', level', f, Order(d) + 1)
    ensures forall k :: 0 <= k <= f ==> nodes'[k].idx != e
    ensures (nodes', visited') == Branch(data, width, nodes, visited, f, d)
  {
    var i := nodes[f].idx;
    if Open(data, width, i, d) && Step(i, d, width) !in visited {
      nodes', visited', level' := Push(data, width, start, nodes, visited, level, f, d);
    } else {
      Skip(data, width, start, nodes, visited, level, f, d);
      nodes', visited', level' := nodes, visited, level;
    }
  }

  /** Once node `f` is expanded in all four directions, the queue moves on to node `f + 1`. */
  lemma Advance(data: seq<Cell>, width: int, start: int, nodes: seq<Node>, visited: seq<int>,
                level: seq<int>, f: nat)
    requires Searching(data, width, start, nodes, visited, level, f)
    requires Tail(data, nodes, level, f)
    requires SiblingsBelow(width, nodes, f, 4)
    requires Expanded(data, width, nodes, level, f, 4)
    ensures Searching(data, width, start, nodes, visited, level, f + 1)
    ensures f + 1 < |nodes| ==> Tail(data, nodes, level, f + 1)
    ensures SiblingsBelow(width, nodes, f + 1, 0)
  {
    if f + 1 < |nodes| {
      assert level[nodes[f].idx] <= level[nodes[f + 1].idx];
    }
  }

  // ---------------------------------------------------------------------------
  // Why the search is correct
  // ---------------------------------------------------------------------------

  /** The parent chain of a node is one cell longer than the node's level. */
  lemma {:induction false} ChainLevel(data: seq<Cell>, width: int, start: int, nodes: seq<Node>,
                                      visited: seq<int>, level: seq<int>, k: nat)
    requires SearchTree(data, width, start, nodes) && Levels(data, start, nodes, visited, level)
    requires k < |nodes|
    ensures |Chain(nodes, k)| == level[nodes[k].idx] + 1
    decreases k
  {
    if k > 0 {
      ChainLevel(data, width, start, nodes, visited, level, nodes[k].parent.value);
    }
  }

  /**
   * While every node shallower than `depth` has been expanded, the i-th cell of
   * any walk from the start is visited at level at most i (for i up to `depth`).
   */
  lemma {:induction false} Frontier(data: seq<Cell>, width: int, start: int, nodes: seq<Node>,
                                    visited: seq<int>, level: seq<int>, done: nat,
                                    depth: int, w: seq<int>, i: nat)
    requires VisitedList(nodes, visited) && Levels(data, start, nodes, visited, level)
    requires done <= |nodes| && ExpandedBelow(data, width, nodes, level, done)
    requires forall k :: 0 <= k < |nodes| && level[nodes[k].idx] < depth ==> k < done
    requires IsWalk(data, width, w) && |w| > 0 && w[0] == start
    requires i < |w| && i <= depth
    ensures 0 <= w[i] < |data| && 0 <= level[w[i]] <= i
    decreases i
  {
    if i > 0 {
      Frontier(data, width, start, nodes, visited, level, done, depth, w, i - 1);
      var c := w[i - 1];
      assert Adjacent(data, width, c, w[i]);
      var k :| 0 <= k < |visited| && visited[k] == c;
      assert k < done;
      assert Expanded(data, width, nodes, level, k, 4);
      var d :| Open(data, width, c, d) && Step(c, d, width) == w[i];
    }
  }

  /** The first node dequeued for `endPoint` ends a shortest route. */
  lemma FoundIsShortest(data: seq<Cell>, width: int, start: int, nodes: seq<Node>,
                        visited: seq<int>, level: seq<int>, f: nat)
    requires Searching(data, width, start, nodes, visited, level, f)
    requires f < |nodes|
    ensures forall w :: IsRoute(data, width, start, nodes[f].idx, w) ==> |Chain(nodes, f)| <= |w|
  {
    var target := nodes[f].idx;
    var depth := level[target];
    ChainLevel(data, width, start, nodes, visited, level, f);
    forall k | f <= k < |nodes| ensures level[nodes[f].idx] <= level[nodes[k].idx] {
    }
    forall w | IsRoute(data, width, start, target, w) ensures |Chain(nodes, f)| <= |w| {
      if |w| - 1 <= depth {
        Frontier(data, width, start, nodes, visited, level, f, depth, w, |w| - 1);
      }
    }
  }

  /** When the queue runs empty without `endPoint`, no route reaches it. */
  lemma NoRoute(data: seq<Cell>, width: int, start: int, endPoint: int, nodes: seq<Node>,
                visited: seq<int>, level: seq<int>)
    requires Searching(data, width, start, nodes, visited, level, |nodes|)
    requires forall k :: 0 <= k < |nodes| ==> nodes[k].idx != endPoint
    ensures !Reachable(data, width, start, endPoint)
  {
    if w :| IsRoute(data, width, start, endPoint, w) {
      Frontier(data, width, start, nodes, visited, level, |nodes|, |w|, w, |w| - 1);
      assert false;
    }
  }

  // ---------------------------------------------------------------------------
  // From the found node to the highlighted path
  // ---------------------------------------------------------------------------

  /**
   * The walk up the parent links from node `found`: every ancestor's cell,
   * nearest first, that is neither `a` nor `b` is appended to the path.
   */
  method Unwind(nodes: seq<Node>, found: nat, a: int, b: int) returns (path: seq<int>)
    requires ParentsEarlier(nodes) && found < |nodes|
    ensures path == Without(Chain(nodes, found)[1..], a, b)
  {
    var k: nat := found;
    path := [];
    while nodes[k].parent.Some?
      invariant k < |nodes|
      invariant path + Without(Chain(nodes, k)[1..], a, b) == Without(Chain(nodes, found)[1..], a, b)
      decreases k
    {
      UnwindStep(nodes, k, a, b, path);
      k := nodes[k].parent.value;
      if nodes[k].idx != a && nodes[k].idx != b {
        path := path + [nodes[k].idx];
      }
    }
  }

  /**
   * One step up the parent links: the parent's cell moves from the front of
   * the rest of the chain to the end of the path, unless it is `a` or `b`.
   */
  lemma UnwindStep(nodes: seq<Node>, k: nat, a: int, b: int, path: seq<int>)
    requires ParentsEarlier(nodes) && k < |nodes| && nodes[k].parent.Some?
    ensures var p := nodes[k].parent.value;
      var next := if nodes[p].idx != a && nodes[p].idx != b then path + [nodes[p].idx] else path;
      path + Without(Chain(nodes, k)[1..], a, b) == next + Without(Chain(nodes, p)[1..], a, b)
  {
    var p := nodes[k].parent.value;
    var rest := Without(Chain(nodes, p)[1..], a, b);
    assert Chain(nodes, k)[1..] == Chain(nodes, p);
    if nodes[p].idx != a && nodes[p].idx != b {
      assert path + ([nodes[p].idx] + rest) == (path + [nodes[p].idx]) + rest;
    } else {
      assert [] + rest == rest;
    }
  }

  /**
   * The path the reference search highlights: the cells of the strict
   * ancestors of the node it stops at, nearest first, other than `start` and
   * `e`.  When the queue runs empty the node is the start node, whose path is
   * empty.  (The last case, a node list that is not a tree, does not arise.)
   */
  function CheatPath(data: seq<Cell>, width: int, start: int, e: int): seq<int> {
    var (nodes, head) := Bfs(data, width, start, e);
    var found := if head < |nodes| then head else 0;
    if found < |nodes| && ParentsEarlier(nodes) then Without(Chain(nodes, found)[1..], start, e) else []
  }

  /** The unwound path of what `Solve` returns is the interior of a shortest route, or empty. */
  lemma Highlighted(data: seq<Cell>, width: int, start: int, e: int, nodes: seq<Node>, found: nat,
                    path: seq<int>)
    requires SearchTree(data, width, start, nodes) && found < |nodes|
    requires nodes[found].idx == e ==>
               forall w :: IsRoute(data, width, start, e, w) ==> |Chain(nodes, found)| <= |w|
    requires nodes[found].idx != e ==> found == 0 && !Reachable(data, width, start, e)
    requires path == Without(Chain(nodes, found)[1..], start, e)
    ensures InteriorOfShortestRoute(data, width, start, e, path)
  {
    if nodes[found].idx == e {
      HighlightedFound(data, width, start, e, nodes, found, path);
    } else {
      assert Chain(nodes, found) == [start];
    }
  }

  /** `Highlighted` when the search reached the end point. */
  lemma HighlightedFound(data: seq<Cell>, width: int, start: int, e: int, nodes: seq<Node>, found: nat,
                         path: seq<int>)
    requires SearchTree(data, width, start, nodes) && found < |nodes| && nodes[found].idx == e
    requires forall w :: IsRoute(data, width, start, e, w) ==> |Chain(nodes, found)| <= |w|
    requires path == Without(Chain(nodes, found)[1..], start, e)
    ensures InteriorOfShortestRoute(data, width, start, e, path)
  {
    Reconstructed(data, width, start, e, nodes, found);
    if start != e {
      assert IsRoute(data, width, start, e, [start] + Reverse(path) + [e]);
    }
  }

  /** Following parents from node `k` back to the root, reversed, is a route from the start to node `k`. */
  lemma {:induction false} ChainIsRoute(data: seq<Cell>, width: int, start: int, nodes: seq<Node>, k: nat)
    requires SearchTree(data, width, start, nodes) && k < |nodes|
    ensures IsRoute(data, width, start, nodes[k].idx, Reverse(Chain(nodes, k)))
    decreases k
  {
    match nodes[k].parent
    case None =>
      assert k == 0;
    case Some(p) =>
      ChainIsRoute(data, width, start, nodes, p);
      var c := Chain(nodes, k);
      var r := Reverse(Chain(nodes, p));
      assert c[1..] == Chain(nodes, p);
      assert Reverse(c) == r + [nodes[k].idx];
      assert Adjacent(data, width, nodes[p].idx, nodes[k].idx);
      forall i | 0 <= i < |Reverse(c)| - 1 ensures Adjacent(data, width, Reverse(c)[i], Reverse(c)[i + 1]) {
        if i < |r| - 1 {
          assert Reverse(c)[i] == r[i] && Reverse(c)[i + 1] == r[i + 1];
        }
      }
  }

  /** A shortest route passes through its two ends only at its ends. */
  lemma ShortestRouteSimple(data: seq<Cell>, width: int, a: int, b: int, w: seq<int>)
    requires IsShortestRoute(data, width, a, b, w)
    ensures forall i :: 0 < i < |w| ==> w[i] != a
    ensures forall i :: 0 <= i < |w| - 1 ==> w[i] != b
  {
    forall i | 0 < i < |w| ensures w[i] != a {
      SuffixIsRoute(data, width, a, b, w, i);
    }
    forall i | 0 <= i < |w| - 1 ensures w[i] != b {
      PrefixIsRoute(data, width, a, b, w, i);
    }
  }

  /** The cells of a route from its i-th cell on form a route from that cell. */
  lemma SuffixIsRoute(data: seq<Cell>, width: int, a: int, b: int, w: seq<int>, i: nat)
    requires IsRoute(data, width, a, b, w) && i < |w|
    ensures IsRoute(data, width, w[i], b, w[i..])
  {
    var v := w[i..];
    forall j | 0 <= j < |v| - 1 ensures Adjacent(data, width, v[j], v[j + 1]) {
      assert v[j] == w[i + j] && v[j + 1] == w[i + j + 1];
    }
  }

  /** The cells of a route up to its i-th cell form a route to that cell. */
  lemma PrefixIsRoute(data: seq<Cell>, width: int, a: int, b: int, w: seq<int>, i: nat)
    requires IsRoute(data, width, a, b, w) && i < |w|
    ensures IsRoute(data, width, a, w[i], w[..i + 1])
  {
  }

  lemma {:induction false} WithoutAppend(s: seq<int>, t: seq<int>, a: int, b: int)
    ensures Without(s + t, a, b) == Without(s, a, b) + Without(t, a, b)
  {
    if s == [] {
      assert s + t == t;
    } else {
      assert (s + t)[1..] == s[1..] + t;
      WithoutAppend(s[1..], t, a, b);
    }
  }

  lemma {:induction false} WithoutNeither(s: seq<int>, a: int, b: int)
    requires forall i :: 0 <= i < |s| ==> s[i] != a && s[i] != b
    ensures Without(s, a, b) == s
  {
    if s != [] {
      WithoutNeither(s[1..], a, b);
    }
  }

  /**
   * The parent chain of the node found for `e`, less its first cell and
   * without the cells `start` and `e`, is the interior of a shortest route:
   * reversed, between `start` and `e`, it is a shortest route from `start`
   * to `e`, and it is empty when the two coincide.
   */
  lemma Reconstructed(data: seq<Cell>, width: int, start: int, e: int, nodes: seq<Node>, found: nat)
    requires SearchTree(data, width, start, nodes) && found < |nodes| && nodes[found].idx == e
    requires forall w :: IsRoute(data, width, start, e, w) ==> |Chain(nodes, found)| <= |w|
    ensures start == e ==> Without(Chain(nodes, found)[1..], start, e) == []
    ensures start != e ==>
              IsShortestRoute(data, width, start, e,
                              [start] + Reverse(Without(Chain(nodes, found)[1..], start, e)) + [e])
  {
    var c := Chain(nodes, found);
    ChainIsRoute(data, width, start, nodes, found);
    if start == e {
      assert IsRoute(data, width, start, e, [start]);
      assert c[1..] == [];
    } else {
      EndsOnlyAtEnds(data, width, start, e, Reverse(c));
      Backwards(start, e, c);
      Interior(start, e, c);
    }
  }

  /** A shortest route between two different cells meets its two ends only at its ends. */
  lemma EndsOnlyAtEnds(data: seq<Cell>, width: int, start: int, e: int, w: seq<int>)
    requires start != e
    requires IsShortestRoute(data, width, start, e, w)
    ensures |w| >= 2
    ensures forall i :: 0 < i < |w| - 1 ==> w[i] != start && w[i] != e
  {
    ShortestRouteSimple(data, width, start, e, w);
  }

  /** The facts about a route read backwards as `c`. */
  lemma Backwards(start: int, e: int, c: seq<int>)
    requires |c| >= 2 && Reverse(c)[0] == start && Reverse(c)[|c| - 1] == e
    requires forall i :: 0 < i < |c| - 1 ==> Reverse(c)[i] != start && Reverse(c)[i] != e
    ensures c[0] == e && c[|c| - 1] == start
    ensures forall i :: 0 < i < |c| - 1 ==> c[i] != start && c[i] != e
  {
    var r := Reverse(c);
    forall i | 0 < i < |c| - 1 ensures c[i] != start && c[i] != e {
      assert c[i] == r[|c| - 1 - i];
    }
  }

  /** Cutting the ends off `Reverse(c)` and putting them back gives `Reverse(c)`. */
  lemma Interior(start: int, e: int, c: seq<int>)
    requires start != e
    requires |c| >= 2 && c[0] == e && c[|c| - 1] == start
    requires forall i :: 0 < i < |c| - 1 ==> c[i] != start && c[i] != e
    ensures [start] + Reverse(Without(c[1..], start, e)) + [e] == Reverse(c)
  {
    DropEnds(start, e, c);
    Unwrap(c, c[1..|c| - 1]);
  }

  /** Leaving `start` and `e` out of everything after the first cell of `c` leaves its interior. */
  lemma DropEnds(start: int, e: int, c: seq<int>)
    requires start != e
    requires |c| >= 2 && c[|c| - 1] == start
    requires forall i :: 0 < i < |c| - 1 ==> c[i] != start && c[i] != e
    ensures Without(c[1..], start, e) == c[1..|c| - 1]
  {
    var mid := c[1..|c| - 1];
    assert c[1..] == mid + [start];
    forall i | 0 <= i < |mid| ensures mid[i] != start && mid[i] != e {
      assert mid[i] == c[i + 1];
    }
    WithoutAppend(mid, [start], start, e);
    WithoutNeither(mid, start, e);
    assert Without([start], start, e) == [];
  }

  /** Reversing a sequence of at least two cells keeps its two ends at the opposite ends. */
  lemma Unwrap(c: seq<int>, mid: seq<int>)
    requires |c| >= 2 && mid == c[1..|c| - 1]
    ensures [c[|c| - 1]] + Reverse(mid) + [c[0]] == Reverse(c)
  {
    var lhs := [c[|c| - 1]] + Reverse(mid) + [c[0]];
    forall i | 0 <= i < |c| ensures lhs[i] == Reverse(c)[i] {
      if 0 < i < |c| - 1 {
        assert lhs[i] == Reverse(mid)[i - 1];
      }
    }
  }
}
