/**
  Specification of the exhaustive travelling-salesman search of
  BugBot/uploads/bfs_dfs.py.

  A graph is a square integer adjacency matrix; vertices are 0 .. n-1.
  Both searches grow simple paths from `start` one vertex at a time,
  trying the vertices in increasing order, and close every path that
  reaches length n into a round trip.  `Extend` below is that search tree,
  listed in the order in which its complete paths (the tours) are met;
  `Best` is the "keep the cheapest, strict <" scan over such a list.
 */
module TourSpec {
  import opened Sequences

  /** Python's `float('inf')` starting value is only a "no tour yet" marker. */
  datatype Cost = Infinity | Finite(value: int)

  /** `cost < min_cost` for an integer `cost`. */
  predicate Below(c: int, best: Cost) {
    best.Infinity? || c < best.value
  }

  predicate IsMatrix(graph: seq<seq<int>>) {
    forall i :: 0 <= i < |graph| ==> |graph[i]| == |graph|
  }

  predicate InRange(n: nat, path: seq<nat>) {
    forall i :: 0 <= i < |path| ==> path[i] < n
  }

  /** A path from `start` that repeats no vertex. */
  predicate IsSimplePath(n: nat, start: nat, path: seq<nat>) {
    |path| >= 1 && path[0] == start && InRange(n, path) && Distinct(path)
  }

  /** A Hamiltonian path from `start`: what the searches close into a round trip. */
  predicate IsTour(n: nat, start: nat, path: seq<nat>) {
    IsSimplePath(n, start, path) && |path| == n
  }

  predicate AllTours(n: nat, start: nat, tours: seq<seq<nat>>) {
    forall k :: 0 <= k < |tours| ==> IsTour(n, start, tours[k])
  }

  /** `s` lists every vertex 0 .. n-1 exactly once. */
  predicate IsPermutation(s: seq<nat>, n: nat) {
    |s| == n && InRange(n, s) && Distinct(s) && forall v :: 0 <= v < n ==> v in s
  }

  /** The shape of a returned `min_path`: a permutation of the vertices, closed back to `start`. */
  predicate IsRoundTrip(n: nat, start: nat, path: seq<nat>) {
    |path| == n + 1 && path[0] == start && path[n] == start && IsPermutation(path[..n], n)
  }

  /** What the searches may hold in their queue or stack: for the empty graph only `[start]`. */
  predicate Queued(n: nat, start: nat, path: seq<nat>) {
    if n == 0 then path == [start] else IsSimplePath(n, start, path) && |path| <= n
  }

  predicate AllQueued(n: nat, start: nat, paths: seq<seq<nat>>) {
    forall p :: p in paths ==> Queued(n, start, p)
  }

  predicate AllOfLength(paths: seq<seq<nat>>, len: nat) {
    forall p :: p in paths ==> |p| == len
  }

  // ---------------------------------------------------------------------------
  // Cost of a path

  /** Sum of `graph[path[i]][path[i+1]]` over consecutive pairs. */
  function EdgeSum(graph: seq<seq<int>>, path: seq<nat>): int
    requires IsMatrix(graph) && InRange(|graph|, path)
  {
    if |path| < 2 then 0
    else EdgeSum(graph, path[..|path| - 1]) + graph[path[|path| - 2]][path[|path| - 1]]
  }

  /** `calculate_cost`: the consecutive edges plus the edge from the last vertex back to the first. */
  function ClosedCost(graph: seq<seq<int>>, path: seq<nat>): int
    requires IsMatrix(graph) && InRange(|graph|, path) && |path| >= 1
  {
    EdgeSum(graph, path) + graph[path[|path| - 1]][path[0]]
  }

  /** The cost the searches compute for a tour: `start` is appended before `calculate_cost`. */
  function TourCost(graph: seq<seq<int>>, start: nat, tour: seq<nat>): int
    requires IsMatrix(graph) && IsTour(|graph|, start, tour)
  {
    ClosedCost(graph, tour + [start])
  }

  /** Splitting a path splits its edge sum at the joining edge. */
  lemma {:induction false} EdgeSumSplit(graph: seq<seq<int>>, a: seq<nat>, b: seq<nat>)
    requires IsMatrix(graph) && InRange(|graph|, a) && InRange(|graph|, b)
    requires |a| >= 1 && |b| >= 1
    ensures InRange(|graph|, a + b)
    ensures EdgeSum(graph, a + b) == EdgeSum(graph, a) + graph[a[|a| - 1]][b[0]] + EdgeSum(graph, b)
    decreases |b|
  {
    var ab := a + b;
    if |b| == 1 {
      assert ab[..|ab| - 1] == a;
    } else {
      var b' := b[..|b| - 1];
      assert ab[..|ab| - 1] == a + b';
      EdgeSumSplit(graph, a, b');
      assert b'[0] == b[0];
      assert b[..|b| - 1] == b';
    }
  }

  /**
    Because the searches append `start` before calling `calculate_cost`, the
    closing term is `graph[start][start]`: the cost of a tour is the cycle
    through all vertices plus that diagonal entry (zero on a zero-diagonal matrix).
   */
  lemma TourCostIsCycle(graph: seq<seq<int>>, start: nat, tour: seq<nat>)
    requires IsMatrix(graph) && IsTour(|graph|, start, tour)
    ensures TourCost(graph, start, tour)
         == EdgeSum(graph, tour) + graph[tour[|tour| - 1]][start] + graph[start][start]
  {
    EdgeSumSplit(graph, tour, [start]);
  }

  // ---------------------------------------------------------------------------
  // The search tree

  /**
    Complete paths below `path`, in the order the searches meet them.  A path
    longer than n only arises for the empty graph, where `[start]` has no
    children; it yields nothing.
   */
  function Extend(n: nat, path: seq<nat>): seq<seq<nat>>
    decreases n - |path|, 1, 0
  {
    if |path| == n then [path]
    else if |path| > n then []
    else Children(n, path, 0)
  }

  /** Complete paths below `path + [w]` for the vertices `w >= v` not on `path`, by increasing `w`. */
  function Children(n: nat, path: seq<nat>, v: nat): seq<seq<nat>>
    requires |path| < n
    decreases n - |path|, 0, n - v
  {
    if v >= n then []
    else (if v in path then [] else Extend(n, path + [v])) + Children(n, path, v + 1)
  }

  /** Every tour from `start`, in the order both searches close them. */
  function Tours(n: nat, start: nat): seq<seq<nat>> {
    Extend(n, [start])
  }

  /** Number of paths in the search tree below (and including) `path`. */
  function Nodes(n: nat, path: seq<nat>): nat
    decreases n - |path|, 1, 0
  {
    if |path| >= n then 1 else 1 + ChildNodes(n, path, 0)
  }

  function ChildNodes(n: nat, path: seq<nat>, v: nat): nat
    requires |path| < n
    decreases n - |path|, 0, n - v
  {
    if v >= n then 0
    else (if v in path then 0 else Nodes(n, path + [v])) + ChildNodes(n, path, v + 1)
  }

  /** Tours still to be met from a FIFO queue: the head's subtree first. */
  function Pending(n: nat, queue: seq<seq<nat>>): seq<seq<nat>> {
    if queue == [] then [] else Extend(n, queue[0]) + Pending(n, queue[1..])
  }

  /** Tours still to be met from a LIFO stack: the top (last) element's subtree first. */
  function Stacked(n: nat, stack: seq<seq<nat>>): seq<seq<nat>> {
    if stack == [] then []
    else Extend(n, stack[|stack| - 1]) + Stacked(n, stack[..|stack| - 1])
  }

  /** Paths still to be taken out of a queue or stack (termination measure). */
  function Count(n: nat, paths: seq<seq<nat>>): nat {
    if paths == [] then 0 else Nodes(n, paths[0]) + Count(n, paths[1..])
  }

  lemma {:induction false} PendingAppend(n: nat, a: seq<seq<nat>>, b: seq<seq<nat>>)
    ensures Pending(n, a + b) == Pending(n, a) + Pending(n, b)
    ensures Count(n, a + b) == Count(n, a) + Count(n, b)
    decreases |a|
  {
    if a == [] {
      assert a + b == b;
    } else {
      assert (a + b)[1..] == a[1..] + b;
      PendingAppend(n, a[1..], b);
    }
  }

  /** A one-element queue or stack holds exactly the subtree of its element. */
  lemma Single(n: nat, path: seq<nat>)
    ensures Pending(n, [path]) == Extend(n, path) && Stacked(n, [path]) == Extend(n, path)
    ensures Count(n, [path]) == Nodes(n, path)
  {
    assert [path][1..] == [] && [path][..0] == [];
  }

  lemma {:induction false} StackedAppend(n: nat, a: seq<seq<nat>>, b: seq<seq<nat>>)
    ensures Stacked(n, a + b) == Stacked(n, b) + Stacked(n, a)
    decreases |b|
  {
    if b == [] {
      assert a + b == a;
    } else {
      var b' := b[..|b| - 1];
      assert (a + b)[..|a + b| - 1] == a + b';
      StackedAppend(n, a, b');
    }
  }

  /** A child `path + [v]` of a queued path is queued material too. */
  lemma ChildIsQueued(n: nat, start: nat, path: seq<nat>, v: nat)
    requires Queued(n, start, path) && |path| < n && v < n && v !in path
    ensures Queued(n, start, path + [v])
  {
    var child := path + [v];
    forall a, b | 0 <= a < b < |child| ensures child[a] != child[b] {
      if b == |path| { assert child[a] == path[a]; }
    }
  }

  // ---------------------------------------------------------------------------
  // What the tree enumerates

  lemma {:induction false} ExtendSound(n: nat, start: nat, path: seq<nat>, t: seq<nat>)
    requires n >= 1 && IsSimplePath(n, start, path) && |path| <= n
    requires t in Extend(n, path)
    ensures IsTour(n, start, t) && path <= t
    decreases n - |path|, 1, 0
  {
    if |path| != n {
      ChildrenSound(n, start, path, 0, t);
    }
  }

  lemma {:induction false} ChildrenSound(n: nat, start: nat, path: seq<nat>, v: nat, t: seq<nat>)
    requires n >= 1 && IsSimplePath(n, start, path) && |path| < n
    requires t in Children(n, path, v)
    ensures IsTour(n, start, t) && path <= t && v <= t[|path|]
    decreases n - |path|, 0, n - v
  {
    if v < n {
      var here := if v in path then [] else Extend(n, path + [v]);
      if t in here {
        var p' := path + [v];
        assert Distinct(p') by {
          forall i, j | 0 <= i < j < |p'| ensures p'[i] != p'[j] {
            if j == |path| { assert p'[i] == path[i]; }
          }
        }
        ExtendSound(n, start, p', t);
        assert t[|path|] == p'[|path|];
        assert path == p'[..|path|];
      } else {
        ChildrenSound(n, start, path, v + 1, t);
      }
    }
  }

  lemma {:induction false} ExtendComplete(n: nat, start: nat, path: seq<nat>, t: seq<nat>)
    requires n >= 1 && IsSimplePath(n, start, path) && |path| <= n
    requires IsTour(n, start, t) && path <= t
    ensures t in Extend(n, path)
    decreases n - |path|, 1, 0
  {
    if |path| == n {
      assert path == t;
    } else {
      ChildrenComplete(n, start, path, 0, t);
    }
  }

  lemma {:induction false} ChildrenComplete(n: nat, start: nat, path: seq<nat>, v: nat, t: seq<nat>)
    requires n >= 1 && IsSimplePath(n, start, path) && |path| < n
    requires IsTour(n, start, t) && path <= t && v <= t[|path|]
    ensures t in Children(n, path, v)
    decreases n - |path|, 0, n - v
  {
    var w := t[|path|];
    if v == w {
      assert w !in path by {
        forall i | 0 <= i < |path| ensures path[i] != w {
          assert path[i] == t[i];
        }
      }
      var p' := path + [w];
      assert p' == t[..|path| + 1];
      ExtendComplete(n, start, p', t);
    } else {
      ChildrenComplete(n, start, path, v + 1, t);
    }
  }

  /** The enumeration lists tours only, and every tour from `start`. */
  lemma ToursExactly(n: nat, start: nat, t: seq<nat>)
    requires n == 0 || start < n
    ensures t in Tours(n, start) <==> IsTour(n, start, t)
  {
    if n == 0 {
      EmptyGraphHasNoTours(start);
    } else {
      assert IsSimplePath(n, start, [start]);
      if t in Tours(n, start) {
        ExtendSound(n, start, [start], t);
      }
      if IsTour(n, start, t) {
        assert [start] <= t;
        ExtendComplete(n, start, [start], t);
      }
    }
  }

  lemma EmptyGraphHasNoTours(start: nat)
    ensures Tours(0, start) == []
  {
  }

  lemma ToursAreTours(n: nat, start: nat)
    requires n == 0 || start < n
    ensures AllTours(n, start, Tours(n, start))
  {
    forall k | 0 <= k < |Tours(n, start)| ensures IsTour(n, start, Tours(n, start)[k]) {
      ToursExactly(n, start, Tours(n, start)[k]);
    }
  }

  // ---------------------------------------------------------------------------
  // Keeping the cheapest

  /** Position `j` holds the least cost, and every earlier position a strictly greater one. */
  predicate FirstMin(costs: seq<int>, j: nat) {
    && j < |costs|
    && (forall k :: 0 <= k < |costs| ==> costs[j] <= costs[k])
    && (forall k :: 0 <= k < j ==> costs[j] < costs[k])
  }

  /** The position a left-to-right scan with a strict `<` settles on. */
  function MinIndex(costs: seq<int>): (j: nat)
    requires costs != []
    ensures FirstMin(costs, j)
  {
    var last := |costs| - 1;
    if last == 0 then 0
    else
      var j := MinIndex(costs[..last]);
      assert forall k :: 0 <= k < last ==> costs[..last][k] == costs[k];
      if costs[last] < costs[j] then last else j
  }

  /** The cost `calculate_cost` gives each tour of `tours`, position by position. */
  function Costs(graph: seq<seq<int>>, start: nat, tours: seq<seq<nat>>): (costs: seq<int>)
    requires IsMatrix(graph) && AllTours(|graph|, start, tours)
    ensures |costs| == |tours|
  {
    seq(|tours|, k requires 0 <= k < |tours| => TourCost(graph, start, tours[k]))
  }

  /** Costing one more tour extends the cost list by one. */
  lemma CostsSnoc(graph: seq<seq<int>>, start: nat, tours: seq<seq<nat>>)
    requires IsMatrix(graph) && AllTours(|graph|, start, tours) && tours != []
    ensures AllTours(|graph|, start, tours[..|tours| - 1])
    ensures Costs(graph, start, tours)
         == Costs(graph, start, tours[..|tours| - 1]) + [TourCost(graph, start, tours[|tours| - 1])]
  {
  }

  /** A new last cost takes over the minimum position only when strictly lower. */
  lemma MinIndexSnoc(costs: seq<int>, c: int)
    requires costs != []
    ensures MinIndex(costs + [c]) == if c < costs[MinIndex(costs)] then |costs| else MinIndex(costs)
  {
    assert (costs + [c])[..|costs|] == costs;
  }

  /** The cheapest tour of `tours` that comes first: later ties do not displace it. */
  predicate FirstCheapest(graph: seq<seq<int>>, start: nat, tours: seq<seq<nat>>, j: nat)
    requires IsMatrix(graph) && AllTours(|graph|, start, tours)
  {
    FirstMin(Costs(graph, start, tours), j)
  }

  /** The result of scanning `tours` in order, replacing the best one on a strictly lower cost. */
  function Best(graph: seq<seq<int>>, start: nat, tours: seq<seq<nat>>): (seq<nat>, Cost)
    requires IsMatrix(graph) && AllTours(|graph|, start, tours)
  {
    if tours == [] then ([], Infinity)
    else
      var previous := Best(graph, start, tours[..|tours| - 1]);
      var t := tours[|tours| - 1];
      var c := TourCost(graph, start, t);
      if Below(c, previous.1) then (t + [start], Finite(c)) else previous
  }

  /** `Best` keeps the first cheapest tour of the list, at its `calculate_cost`. */
  lemma {:induction false} BestIsFirstCheapest(graph: seq<seq<int>>, start: nat, tours: seq<seq<nat>>)
    requires IsMatrix(graph) && AllTours(|graph|, start, tours) && tours != []
    ensures var j := MinIndex(Costs(graph, start, tours));
            Best(graph, start, tours) == (tours[j] + [start], Finite(TourCost(graph, start, tours[j])))
    decreases |tours|
  {
    var last := |tours| - 1;
    if last > 0 {
      var init := tours[..last];
      assert AllTours(|graph|, start, init);
      BestIsFirstCheapest(graph, start, init);
      var j := MinIndex(Costs(graph, start, init));
      CostsSnoc(graph, start, tours);
      MinIndexSnoc(Costs(graph, start, init), TourCost(graph, start, tours[last]));
      assert init[j] == tours[j];
    }
  }

  // ---------------------------------------------------------------------------
  // Counting vertices

  function Vertices(n: nat): (r: set<nat>)
    ensures forall v: nat :: v in r <==> v < n
  {
    if n == 0 then {} else Vertices(n - 1) + {n - 1}
  }

  function Elements(s: seq<nat>): set<nat> {
    set x | x in s
  }

  lemma {:induction false} VerticesCard(n: nat)
    ensures |Vertices(n)| == n
  {
    if n > 0 {
      VerticesCard(n - 1);
    }
  }

  lemma {:induction false} ElementsCard(s: seq<nat>)
    requires Distinct(s)
    ensures |Elements(s)| == |s|
    decreases |s|
  {
    if s != [] {
      var s' := s[..|s| - 1];
      assert Distinct(s');
      ElementsCard(s');
      assert Elements(s) == Elements(s') + {s[|s| - 1]};
      assert s[|s| - 1] !in Elements(s');
    }
  }

  lemma SubsetCard(a: set<nat>, b: set<nat>)
    requires a <= b
    ensures |a| <= |b|
  {
    assert b == (b - a) + a;
    assert (b - a) * a == {};
  }

  /** Pigeonhole: a simple path shorter than n misses some vertex. */
  lemma MissingVertex(n: nat, path: seq<nat>) returns (v: nat)
    requires InRange(n, path) && Distinct(path) && |path| < n
    ensures v < n && v !in path
  {
    ElementsCard(path);
    VerticesCard(n);
    if Vertices(n) <= Elements(path) {
      SubsetCard(Vertices(n), Elements(path));
      assert false;
    }
    var w :| w in Vertices(n) && w !in Elements(path);
    v := w;
  }

  /** Pigeonhole: a tour visits every vertex. */
  lemma TourIsPermutation(n: nat, start: nat, tour: seq<nat>)
    requires IsTour(n, start, tour)
    ensures IsPermutation(tour, n)
  {
    forall v | 0 <= v < n ensures v in tour {
      if v !in tour {
        ElementsCard(tour);
        VerticesCard(n);
        assert Elements(tour) <= Vertices(n) - {v};
        SubsetCard(Elements(tour), Vertices(n) - {v});
        assert false;
      }
    }
  }

  lemma {:induction false} ExtendNonEmpty(n: nat, start: nat, path: seq<nat>)
    requires n >= 1 && IsSimplePath(n, start, path) && |path| <= n
    ensures Extend(n, path) != []
    decreases n - |path|
  {
    if |path| < n {
      var v := MissingVertex(n, path);
      var p' := path + [v];
      assert Distinct(p') by {
        forall i, j | 0 <= i < j < |p'| ensures p'[i] != p'[j] {
          if j == |path| { assert p'[i] == path[i]; }
        }
      }
      ExtendNonEmpty(n, start, p');
      ChildrenInclude(n, path, 0, v);
    }
  }

  /** The subtree of an unused vertex `w >= v` is part of `Children(n, path, v)`. */
  lemma {:induction false} ChildrenInclude(n: nat, path: seq<nat>, v: nat, w: nat)
    requires n >= 1 && |path| < n && v <= w < n && w !in path
    ensures |Extend(n, path + [w])| <= |Children(n, path, v)|
    decreases n - v
  {
    if v < w {
      ChildrenInclude(n, path, v + 1, w);
    }
  }

  /** The search finds a tour exactly when the graph is not empty. */
  lemma ToursExist(n: nat, start: nat)
    requires n == 0 || start < n
    ensures Tours(n, start) == [] <==> n == 0
  {
    if n > 0 {
      ExtendNonEmpty(n, start, [start]);
    } else {
      EmptyGraphHasNoTours(start);
    }
  }

  // ---------------------------------------------------------------------------
  // What both searches return

  /** `(min_path, min_cost)` as both `bfs_tsp` and `dfs_tsp` compute it. */
  function SearchResult(graph: seq<seq<int>>, start: nat): (seq<nat>, Cost)
    requires IsMatrix(graph) && (|graph| == 0 || start < |graph|)
  {
    ToursAreTours(|graph|, start);
    Best(graph, start, Tours(|graph|, start))
  }

  /**
    The search result: nothing for the empty graph; otherwise a round trip
    through every vertex whose reported cost is its `calculate_cost` and is
    at most the cost of every tour from `start`, the first such tour in
    enumeration order being kept on ties.
   */
  lemma SearchResultIsOptimal(graph: seq<seq<int>>, start: nat)
    requires IsMatrix(graph) && (|graph| == 0 || start < |graph|)
    ensures var (path, cost) := SearchResult(graph, start);
      && (|graph| == 0 ==> path == [] && cost == Infinity)
      && (|graph| > 0 ==> IsRoundTrip(|graph|, start, path)
                          && cost == Finite(ClosedCost(graph, path)))
      && (forall t :: IsTour(|graph|, start, t) ==> cost.Finite? && cost.value <= TourCost(graph, start, t))
  {
    var n := |graph|;
    var tours := Tours(n, start);
    ToursAreTours(n, start);
    ToursExist(n, start);
    if n > 0 {
      BestIsFirstCheapest(graph, start, tours);
      var j := MinIndex(Costs(graph, start, tours));
      var path := tours[j] + [start];
      TourIsPermutation(n, start, tours[j]);
      assert path[..n] == tours[j];
      assert IsRoundTrip(n, start, path);
      forall t | IsTour(n, start, t) ensures TourCost(graph, start, tours[j]) <= TourCost(graph, start, t) {
        ToursExactly(n, start, t);
        var k :| 0 <= k < |tours| && tours[k] == t;
        assert Costs(graph, start, tours)[k] == TourCost(graph, start, t);
      }
    } else {
      forall t | IsTour(n, start, t) ensures false { }
    }
  }

  /** On ties the search keeps the tour it met first: the returned tour is the first cheapest of `Tours`. */
  lemma SearchResultKeepsFirstCheapest(graph: seq<seq<int>>, start: nat)
    requires IsMatrix(graph) && 0 < |graph| && start < |graph|
    ensures AllTours(|graph|, start, Tours(|graph|, start)) && Tours(|graph|, start) != []
    ensures exists j: nat :: FirstCheapest(graph, start, Tours(|graph|, start), j)
                          && SearchResult(graph, start).0 == Tours(|graph|, start)[j] + [start]
  {
    var tours := Tours(|graph|, start);
    ToursAreTours(|graph|, start);
    ToursExist(|graph|, start);
    BestIsFirstCheapest(graph, start, tours);
    var j := MinIndex(Costs(graph, start, tours));
    assert FirstCheapest(graph, start, tours, j);
  }
}
