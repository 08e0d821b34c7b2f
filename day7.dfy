/** Handy haversacks (day7/src/main.rs): a graph of bag colours whose edges
    say how many bags of a colour a bag must contain. A depth-first search
    finds the colours a bag reaches, and a recursive sum counts the bags
    inside a bag. */
module HandyHaversacks {

  /** An edge of the graph: the colour index of a contained bag and its
      quantity. */
  datatype Edge = Edge(child: nat, quantity: int)

  /** `Graph`: colours are the indices `0..|adj|` (the order of `nodes_map`)
      and `adj[n]` is the edge list of colour `n`, in the order of its rule. */
  datatype Graph = Graph(adj: seq<seq<Edge>>)

  /** Every edge leads to a colour of the graph. */
  predicate Valid(g: Graph)
  {
    forall n, k :: 0 <= n < |g.adj| && 0 <= k < |g.adj[n]| ==> g.adj[n][k].child < |g.adj|
  }

  /** `rank` strictly decreases along every edge: the graph has no cycle. */
  predicate Ranked(g: Graph, rank: seq<nat>)
  {
    Valid(g) && |rank| == |g.adj| &&
    forall n, k :: 0 <= n < |g.adj| && 0 <= k < |g.adj[n]| ==> rank[g.adj[n][k].child] < rank[n]
  }

  // ===== reachability =====

  ghost predicate HasChild(g: Graph, a: nat, b: nat)
  {
    a < |g.adj| && exists k :: 0 <= k < |g.adj[a]| && g.adj[a][k].child == b
  }

  /** `p` is a walk along the edges of the graph. */
  ghost predicate IsPath(g: Graph, p: seq<nat>)
  {
    |p| >= 1 && p[|p| - 1] < |g.adj| &&
    forall i :: 0 <= i < |p| - 1 ==> HasChild(g, p[i], p[i + 1])
  }

  /** Colour `t` can be reached from colour `s` by zero or more edges. */
  ghost predicate Reachable(g: Graph, s: nat, t: nat)
  {
    exists p :: IsPath(g, p) && p[0] == s && p[|p| - 1] == t
  }

  lemma ReachableRefl(g: Graph, s: nat)
    requires s < |g.adj|
    ensures Reachable(g, s, s)
  {
    assert IsPath(g, [s]);
  }

  lemma ReachableStep(g: Graph, s: nat, n: nat, k: nat)
    requires Valid(g) && n < |g.adj| && k < |g.adj[n]| && Reachable(g, s, n)
    ensures Reachable(g, s, g.adj[n][k].child)
  {
    var p :| IsPath(g, p) && p[0] == s && p[|p| - 1] == n;
    var q := p + [g.adj[n][k].child];
    assert forall i :: 0 <= i < |p| ==> q[i] == p[i];
    assert HasChild(g, q[|p| - 1], q[|p|]);
    assert IsPath(g, q);
  }

  /** A set of colours that every edge leaving it leads back into. */
  ghost predicate Closed(g: Graph, s: set<nat>)
  {
    forall v, k :: v in s && v < |g.adj| && 0 <= k < |g.adj[v]| ==> g.adj[v][k].child in s
  }

  /** A closed set that holds `s` holds every colour reachable from `s`. */
  lemma ClosedHoldsReachable(g: Graph, c: set<nat>, s: nat, t: nat)
    requires Closed(g, c) && s in c && Reachable(g, s, t)
    ensures t in c
  {
    var p :| IsPath(g, p) && p[0] == s && p[|p| - 1] == t;
    var i := 0;
    while i < |p| - 1
      invariant 0 <= i <= |p| - 1
      invariant p[i] in c
    {
      assert HasChild(g, p[i], p[i + 1]);
      i := i + 1;
    }
  }

  // ===== the number of walks, which bounds the work of the search =====

  /** The number of walks that start at `n`. */
  function Walks(g: Graph, rank: seq<nat>, n: nat): (w: nat)
    requires Ranked(g, rank) && n < |g.adj|
    ensures w >= 1
    decreases rank[n], 1
  {
    1 + WalksFrom(g, rank, n, 0)
  }

  /** The walks that start with one of the edges `k..` of `n`. */
  function WalksFrom(g: Graph, rank: seq<nat>, n: nat, k: nat): nat
    requires Ranked(g, rank) && n < |g.adj| && k <= |g.adj[n]|
    decreases rank[n], 0, |g.adj[n]| - k
  {
    if k == |g.adj[n]| then 0
    else Walks(g, rank, g.adj[n][k].child) + WalksFrom(g, rank, n, k + 1)
  }

  function StackWalks(g: Graph, rank: seq<nat>, stack: seq<nat>): nat
    requires Ranked(g, rank) && forall i :: 0 <= i < |stack| ==> stack[i] < |g.adj|
  {
    if stack == [] then 0 else Walks(g, rank, stack[0]) + StackWalks(g, rank, stack[1..])
  }

  // ===== dfs =====

  /** The children of the first `k` edges, the last one first: what the
      inner loop has pushed after `k` turns. */
  function Pushed(edges: seq<Edge>, k: nat): (p: seq<nat>)
    requires k <= |edges|
    ensures |p| == k
    ensures forall j :: 0 <= j < k ==> edges[j].child in p
  {
    if k == 0 then [] else [edges[k - 1].child] + Pushed(edges, k - 1)
  }

  /** The inner loop of `Graph::dfs`: the children of `node` are pushed on
      the front of the stack one by one, in the order of its edges. */
  method PushChildren(g: Graph, ghost rank: seq<nat>, ghost source: nat, node: nat, rest: seq<nat>)
    returns (stack: seq<nat>)
    requires Ranked(g, rank) && node < |g.adj| && Reachable(g, source, node)
    requires forall i :: 0 <= i < |rest| ==> rest[i] < |g.adj| && Reachable(g, source, rest[i])
    ensures stack == Pushed(g.adj[node], |g.adj[node]|) + rest
    ensures forall i :: 0 <= i < |stack| ==> stack[i] < |g.adj| && Reachable(g, source, stack[i])
    ensures forall k :: 0 <= k < |g.adj[node]| ==> g.adj[node][k].child in stack
    ensures forall x :: x in rest ==> x in stack
    ensures StackWalks(g, rank, stack) + 1 == StackWalks(g, rank, rest) + Walks(g, rank, node)
  {
    stack := rest;
    var edges := g.adj[node];
    for k := 0 to |edges|
      invariant stack == Pushed(edges, k) + rest
      invariant forall i :: 0 <= i < |stack| ==> stack[i] < |g.adj| && Reachable(g, source, stack[i])
      invariant StackWalks(g, rank, stack) + WalksFrom(g, rank, node, k) == StackWalks(g, rank, rest) + WalksFrom(g, rank, node, 0)
    {
      PushOne(g, rank, source, node, k, stack);
      stack := [edges[k].child] + stack;
      assert stack == Pushed(edges, k + 1) + rest;
    }
  }

  /** Pushing the child of edge `k` of `node`: it is reachable too, and it
      brings its own walks onto the stack. */
  lemma PushOne(g: Graph, rank: seq<nat>, source: nat, node: nat, k: nat, stack: seq<nat>)
    requires Ranked(g, rank) && node < |g.adj| && k < |g.adj[node]| && Reachable(g, source, node)
    requires forall i :: 0 <= i < |stack| ==> stack[i] < |g.adj| && Reachable(g, source, stack[i])
    ensures var pushed := [g.adj[node][k].child] + stack;
      (forall i :: 0 <= i < |pushed| ==> pushed[i] < |g.adj| && Reachable(g, source, pushed[i])) &&
      StackWalks(g, rank, pushed) == Walks(g, rank, g.adj[node][k].child) + StackWalks(g, rank, stack)
  {
    ReachableStep(g, source, node, k);
    var pushed := [g.adj[node][k].child] + stack;
    assert pushed[1..] == stack;
  }

  /** `Graph::dfs`: a stack of colours to visit, each visit pushing every
      child, even one already visited. The search ends because the graph
      has no cycle: every turn replaces one walk-count by the smaller sum of
      its children's. The result is exactly the set of colours reachable
      from `source`. */
  method Dfs(g: Graph, ghost rank: seq<nat>, source: nat) returns (reachable: set<nat>)
    requires Ranked(g, rank) && source < |g.adj|
    ensures source in reachable
    ensures Closed(g, reachable)
    ensures forall t: nat :: t in reachable <==> t < |g.adj| && Reachable(g, source, t)
  {
    var stack: seq<nat> := [source];
    var visited: set<nat> := {};
    reachable := {};
    ReachableRefl(g, source);
    while |stack| > 0
      invariant forall i :: 0 <= i < |stack| ==> stack[i] < |g.adj| && Reachable(g, source, stack[i])
      invariant reachable == visited
      invariant forall v :: v in visited ==> v < |g.adj| && Reachable(g, source, v)
      invariant source in visited || stack == [source]
      invariant forall v, k :: v in visited && v < |g.adj| && 0 <= k < |g.adj[v]| ==>
        g.adj[v][k].child in visited || g.adj[v][k].child in stack
      decreases StackWalks(g, rank, stack)
    {
      ghost var before := StackWalks(g, rank, stack);
      var node := stack[0];
      if node !in visited {
        visited := visited + {node};
        reachable := reachable + {node};
      }
      stack := PushChildren(g, rank, source, node, stack[1..]);
    }
    forall t: nat | Reachable(g, source, t)
      ensures t in reachable
    {
      ClosedHoldsReachable(g, reachable, source, t);
    }
  }

  /** The count in `main`: every colour other than the target whose search
      finds the target, in increasing order. The target itself is skipped,
      as its own search always finds it. */
  method CanReach(g: Graph, ghost rank: seq<nat>, target: nat) returns (canReach: seq<nat>)
    requires Ranked(g, rank) && target < |g.adj|
    ensures forall i, j :: 0 <= i < j < |canReach| ==> canReach[i] < canReach[j]
    ensures forall t: nat :: t in canReach <==> t < |g.adj| && t != target && Reachable(g, t, target)
  {
    canReach := [];
    for i := 0 to |g.adj|
      invariant forall a, b :: 0 <= a < b < |canReach| ==> canReach[a] < canReach[b]
      invariant forall a :: 0 <= a < |canReach| ==> canReach[a] < i
      invariant forall t: nat :: t in canReach <==> t < i && t != target && Reachable(g, t, target)
    {
      if i != target {
        var reachable := Dfs(g, rank, i);
        if target in reachable {
          canReach := canReach + [i];
        }
      }
    }
  }

  // ===== dfs_sum =====

  /** `Graph::dfs_sum`: one for the bag itself plus, for every edge, the
      quantity times the count of the contained bag. */
  function BagCount(g: Graph, rank: seq<nat>, n: nat): int
    requires Ranked(g, rank) && n < |g.adj|
    decreases rank[n], 1
  {
    1 + ContentCount(g, rank, n, 0)
  }

  /** The bags contributed by the edges `k..` of `n`. */
  function ContentCount(g: Graph, rank: seq<nat>, n: nat, k: nat): int
    requires Ranked(g, rank) && n < |g.adj| && k <= |g.adj[n]|
    decreases rank[n], 0, |g.adj[n]| - k
  {
    if k == |g.adj[n]| then 0
    else g.adj[n][k].quantity * BagCount(g, rank, g.adj[n][k].child) + ContentCount(g, rank, n, k + 1)
  }

  /** `Graph::dfs_sum`: start from one for the bag itself and add, edge by
      edge in rule order, the quantity times the recursive count of the
      contained bag. */
  method DfsSum(g: Graph, ghost rank: seq<nat>, source: nat) returns (sum: int)
    requires Ranked(g, rank) && source < |g.adj|
    ensures sum == BagCount(g, rank, source)
    decreases rank[source]
  {
    sum := 1;
    var edges := g.adj[source];
    for i := 0 to |edges|
      invariant sum + ContentCount(g, rank, source, i) == BagCount(g, rank, source)
    {
      var val := DfsSum(g, rank, edges[i].child);
      sum := sum + edges[i].quantity * val;
    }
  }

  /** The count depends on the graph only: any two rankings give the same
      count. */
  lemma {:induction false} BagCountRankFree(g: Graph, r1: seq<nat>, r2: seq<nat>, n: nat)
    requires Ranked(g, r1) && Ranked(g, r2) && n < |g.adj|
    ensures BagCount(g, r1, n) == BagCount(g, r2, n)
    decreases r1[n], 1
  {
    ContentCountRankFree(g, r1, r2, n, 0);
  }

  lemma {:induction false} ContentCountRankFree(g: Graph, r1: seq<nat>, r2: seq<nat>, n: nat, k: nat)
    requires Ranked(g, r1) && Ranked(g, r2) && n < |g.adj| && k <= |g.adj[n]|
    ensures ContentCount(g, r1, n, k) == ContentCount(g, r2, n, k)
    decreases r1[n], 0, |g.adj[n]| - k
  {
    if k < |g.adj[n]| {
      BagCountRankFree(g, r1, r2, g.adj[n][k].child);
      ContentCountRankFree(g, r1, r2, n, k + 1);
    }
  }

  predicate NonNegative(g: Graph)
  {
    forall n, k :: 0 <= n < |g.adj| && 0 <= k < |g.adj[n]| ==> g.adj[n][k].quantity >= 0
  }

  /** With no negative quantity, every edge's bags are part of the count,
      and a bag counts only itself exactly when every quantity it lists is
      zero (a colour with no edges counts 1). */
  lemma {:induction false} BagCountBounds(g: Graph, rank: seq<nat>, n: nat)
    requires Ranked(g, rank) && NonNegative(g) && n < |g.adj|
    ensures BagCount(g, rank, n) >= 1
    ensures forall k :: 0 <= k < |g.adj[n]| ==>
      g.adj[n][k].quantity * BagCount(g, rank, g.adj[n][k].child) <= BagCount(g, rank, n) - 1
    ensures BagCount(g, rank, n) == 1 <==> forall k :: 0 <= k < |g.adj[n]| ==> g.adj[n][k].quantity == 0
    decreases rank[n], 1
  {
    ContentCountBounds(g, rank, n, 0);
  }

  lemma {:induction false} ContentCountBounds(g: Graph, rank: seq<nat>, n: nat, k: nat)
    requires Ranked(g, rank) && NonNegative(g) && n < |g.adj| && k <= |g.adj[n]|
    ensures ContentCount(g, rank, n, k) >= 0
    ensures forall j :: k <= j < |g.adj[n]| ==>
      g.adj[n][j].quantity * BagCount(g, rank, g.adj[n][j].child) <= ContentCount(g, rank, n, k)
    ensures ContentCount(g, rank, n, k) == 0 <==> forall j :: k <= j < |g.adj[n]| ==> g.adj[n][j].quantity == 0
    decreases rank[n], 0, |g.adj[n]| - k
  {
    if k < |g.adj[n]| {
      var e := g.adj[n][k];
      BagCountBounds(g, rank, e.child);
      ContentCountBounds(g, rank, n, k + 1);
      assert e.quantity * BagCount(g, rank, e.child) >= 0;
      assert e.quantity * BagCount(g, rank, e.child) == 0 <==> e.quantity == 0;
    }
  }

  // ===== the examples =====

  /** The first example: light red 0, bright white 1, muted yellow 2, dark
      orange 3, shiny gold 4, faded blue 5, dark olive 6, vibrant plum 7,
      dotted black 8, numbered in order of first appearance. */
  function Example(): Graph
  {
    Graph([[Edge(1, 1), Edge(2, 2)], [Edge(4, 1)], [Edge(4, 2), Edge(5, 9)], [Edge(1, 3), Edge(2, 4)],
           [Edge(6, 1), Edge(7, 2)], [], [Edge(5, 3), Edge(8, 4)], [Edge(5, 5), Edge(8, 6)], []])
  }

  function ExampleRank(): seq<nat>
  {
    [4, 3, 3, 4, 2, 0, 1, 1, 0]
  }

  /** The example's rules have no cycle. */
  lemma ExampleRanked()
    ensures Ranked(Example(), ExampleRank())
  {
  }

  /** Four colours can hold a shiny gold bag: light red, bright white, muted
      yellow and dark orange. */
  lemma ExampleReachers()
    ensures forall t: nat :: t < 9 && t != 4 ==> (Reachable(Example(), t, 4) <==> t < 4)
  {
    ExampleHolders();
    ExampleNotHolders();
  }

  lemma ExampleHolders()
    ensures forall t: nat :: t < 4 ==> Reachable(Example(), t, 4)
  {
    var g := Example();
    assert HasChild(g, 0, 1) && HasChild(g, 1, 4) && HasChild(g, 2, 4) && HasChild(g, 3, 2) by {
      assert g.adj[0][0].child == 1 && g.adj[1][0].child == 4 && g.adj[2][0].child == 4 && g.adj[3][1].child == 2;
    }
    assert IsPath(g, [0, 1, 4]) && IsPath(g, [1, 4]) && IsPath(g, [2, 4]) && IsPath(g, [3, 2, 4]);
  }

  lemma ExampleNotHolders()
    ensures forall t: nat :: 5 <= t < 9 ==> !Reachable(Example(), t, 4)
  {
    var g := Example();
    var below: set<nat> := {5, 6, 7, 8};
    assert Closed(g, below);
    forall t: nat | 5 <= t < 9
      ensures !Reachable(g, t, 4)
    {
      if Reachable(g, t, 4) {
        ClosedHoldsReachable(g, below, t, 4);
      }
    }
  }

  /** A shiny gold bag holds 32 other bags. */
  lemma ExampleBagCount()
    ensures BagCount(Example(), ExampleRank(), 4) - 1 == 32
  {
    var g, r := Example(), ExampleRank();
    assert Ranked(g, r);
    assert BagCount(g, r, 5) == 1 && BagCount(g, r, 8) == 1;
    assert ContentCount(g, r, 6, 1) == 4;
    assert BagCount(g, r, 6) == 8;
    assert ContentCount(g, r, 7, 1) == 6;
    assert BagCount(g, r, 7) == 12;
    assert ContentCount(g, r, 4, 1) == 24;
  }

  /** The second example, a chain of seven colours each holding two of the
      next: a shiny gold bag holds 126 other bags. */
  lemma ChainBagCount()
    ensures BagCount(Graph([[Edge(1, 2)], [Edge(2, 2)], [Edge(3, 2)], [Edge(4, 2)], [Edge(5, 2)], [Edge(6, 2)], []]),
                     [6, 5, 4, 3, 2, 1, 0], 0) - 1 == 126
  {
    var g := Graph([[Edge(1, 2)], [Edge(2, 2)], [Edge(3, 2)], [Edge(4, 2)], [Edge(5, 2)], [Edge(6, 2)], []]);
    var r: seq<nat> := [6, 5, 4, 3, 2, 1, 0];
    assert Ranked(g, r);
    assert BagCount(g, r, 6) == 1;
    assert BagCount(g, r, 5) == 3;
    assert BagCount(g, r, 4) == 7;
    assert BagCount(g, r, 3) == 15;
    assert BagCount(g, r, 2) == 31;
    assert BagCount(g, r, 1) == 63;
  }
}
