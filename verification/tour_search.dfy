/**
  The three functions of BugBot/uploads/bfs_dfs.py: `calculate_cost` and the
  breadth-first and depth-first exhaustive tour searches.  Each search is
  proved to close the tours in exactly the order of `TourSpec.Tours`, so both
  return `TourSpec.SearchResult`.
 */
module TourSearch {
  import opened Sequences
  import opened TourSpec

  /** `calculate_cost(graph, path)`: consecutive edges, then the edge back to `path[0]`. */
  method CalculateCost(graph: seq<seq<int>>, path: seq<nat>) returns (cost: int)
    requires IsMatrix(graph) && InRange(|graph|, path) && |path| >= 1
    ensures cost == ClosedCost(graph, path)
  {
    cost := 0;
    for i := 0 to |path| - 1
      invariant cost == EdgeSum(graph, path[..i + 1])
    {
      assert path[..i + 2][..i + 1] == path[..i + 1];
      cost := cost + graph[path[i]][path[i + 1]];
    }
    assert path[..|path|] == path;
    cost := cost + graph[path[|path| - 1]][path[0]];
  }

  /** `bfs_tsp(graph, start)`: FIFO queue of partial paths. */
  method BfsTsp(graph: seq<seq<int>>, start: nat) returns (minPath: seq<nat>, minCost: Cost)
    requires IsMatrix(graph)
    requires |graph| == 0 || start < |graph|
    ensures (minPath, minCost) == SearchResult(graph, start)
    ensures |graph| == 0 ==> minPath == [] && minCost == Infinity
    ensures |graph| > 0 ==> IsRoundTrip(|graph|, start, minPath) && minCost == Finite(ClosedCost(graph, minPath))
    ensures forall t :: IsTour(|graph|, start, t) ==> minCost.Finite? && minCost.value <= TourCost(graph, start, t)
  {
    var n := |graph|;
    var queue: seq<seq<nat>> := [[start]];
    minCost := Infinity;
    minPath := [];
    ghost var all := Tours(n, start);
    ghost var found: seq<seq<nat>> := [];
    ghost var fore: seq<seq<nat>>, back: seq<seq<nat>>, level: nat := queue, [], 1;
    Single(n, [start]);
    while queue != []
      invariant FifoInvariant(n, start, queue, fore, back, level, found, all)
      invariant (minPath, minCost) == Best(graph, start, found)
      decreases Count(n, queue)
    {
      var path := queue[0];
      fore, back, level := FifoNextLevel(n, start, queue, fore, back, level, found, all);
      if |path| == n {
        queue, minPath, minCost, fore, back, level, found :=
          BfsClose(graph, start, queue, minPath, minCost, fore, back, level, found, all);
      } else {
        queue, fore, back, level := BfsExpand(n, start, queue, fore, back, level, found, all);
      }
    }
    assert fore == [] && back == [];
    assert found + (Pending(n, back) + Pending(n, fore)) == found;
    assert found == Tours(n, start);
    SearchResultIsOptimal(graph, start);
  }

  /** Lines 13-20: the head of the queue visits every vertex; it is closed, costed and compared. */
  method BfsClose(graph: seq<seq<int>>, start: nat, queue: seq<seq<nat>>, minPath: seq<nat>, minCost: Cost,
                  ghost fore: seq<seq<nat>>, ghost back: seq<seq<nat>>, ghost level: nat,
                  ghost found: seq<seq<nat>>, ghost all: seq<seq<nat>>)
    returns (queue': seq<seq<nat>>, minPath': seq<nat>, minCost': Cost,
             ghost fore': seq<seq<nat>>, ghost back': seq<seq<nat>>, ghost level': nat, ghost found': seq<seq<nat>>)
    requires IsMatrix(graph) && queue != [] && fore != [] && |queue[0]| == |graph|
    requires FifoInvariant(|graph|, start, queue, fore, back, level, found, all)
    requires (minPath, minCost) == Best(graph, start, found)
    ensures queue' == queue[1..]
    ensures FifoInvariant(|graph|, start, queue', fore', back', level', found', all)
    ensures (minPath', minCost') == Best(graph, start, found')
  {
    var path := queue[0];
    fore', back', level' := FifoCloseStep(|graph|, start, queue, fore, back, level, found, all);
    queue' := queue[1..];
    minPath', minCost' := Visit(graph, start, path, minPath, minCost, found);
    found' := found + [path];
  }

  /** Lines 13-15 and 22-25: the head of the queue is replaced by its children, appended at the back. */
  method BfsExpand(n: nat, start: nat, queue: seq<seq<nat>>,
                   ghost fore: seq<seq<nat>>, ghost back: seq<seq<nat>>, ghost level: nat,
                   ghost found: seq<seq<nat>>, ghost all: seq<seq<nat>>)
    returns (queue': seq<seq<nat>>, ghost fore': seq<seq<nat>>, ghost back': seq<seq<nat>>, ghost level': nat)
    requires queue != [] && fore != [] && |queue[0]| != n
    requires FifoInvariant(n, start, queue, fore, back, level, found, all)
    ensures |queue'| >= |queue| - 1 && queue'[..|queue| - 1] == queue[1..]
    ensures Pending(n, queue'[|queue| - 1..]) == Extend(n, queue[0])
    ensures FifoInvariant(n, start, queue', fore', back', level', found, all)
    ensures Count(n, queue') < Count(n, queue)
  {
    var path := queue[0];
    assert path in queue;
    ghost var added;
    queue', added := EnqueueChildren(n, start, path, queue[1..]);
    fore', back', level' := FifoExpandStep(n, start, queue, added, fore, back, level, found, all);
  }

  /** `dfs_tsp(graph, start)`: LIFO stack of partial paths, children pushed from the highest vertex down. */
  method DfsTsp(graph: seq<seq<int>>, start: nat) returns (minPath: seq<nat>, minCost: Cost)
    requires IsMatrix(graph)
    requires |graph| == 0 || start < |graph|
    ensures (minPath, minCost) == SearchResult(graph, start)
    ensures |graph| == 0 ==> minPath == [] && minCost == Infinity
    ensures |graph| > 0 ==> IsRoundTrip(|graph|, start, minPath) && minCost == Finite(ClosedCost(graph, minPath))
    ensures forall t :: IsTour(|graph|, start, t) ==> minCost.Finite? && minCost.value <= TourCost(graph, start, t)
  {
    var n := |graph|;
    var stack: seq<seq<nat>> := [[start]];
    minCost := Infinity;
    minPath := [];
    ghost var all := Tours(n, start);
    ghost var found: seq<seq<nat>> := [];
    Single(n, [start]);
    while stack != []
      invariant LifoInvariant(n, start, stack, found, all)
      invariant (minPath, minCost) == Best(graph, start, found)
      decreases Count(n, stack)
    {
      var path := stack[|stack| - 1];
      assert path in stack;
      if |path| == n {
        LifoCloseStep(n, start, stack, found, all);
        stack := stack[..|stack| - 1];
        minPath, minCost := Visit(graph, start, path, minPath, minCost, found);
        found := found + [path];
      } else {
        ghost var before, added := stack, [];
        stack, added := PushChildren(n, start, path, stack[..|stack| - 1]);
        LifoExpandStep(n, start, before, added, found, all);
      }
    }
    assert found == Tours(n, start);
    SearchResultIsOptimal(graph, start);
  }

  /**
    Lines 16-20 and 37-41: a path through every vertex is closed with the
    edge back to `start`, costed with `calculate_cost`, and replaces the best
    one only when strictly cheaper.
   */
  method Visit(graph: seq<seq<int>>, start: nat, path: seq<nat>, minPath: seq<nat>, minCost: Cost,
               ghost found: seq<seq<nat>>)
    returns (minPath': seq<nat>, minCost': Cost)
    requires IsMatrix(graph) && AllTours(|graph|, start, found) && IsTour(|graph|, start, path)
    requires (minPath, minCost) == Best(graph, start, found)
    ensures AllTours(|graph|, start, found + [path])
    ensures (minPath', minCost') == Best(graph, start, found + [path])
  {
    var closed := path + [start];
    var cost := CalculateCost(graph, closed);
    assert (found + [path])[..|found|] == found;
    minPath', minCost' := minPath, minCost;
    if Below(cost, minCost) {
      minCost' := Finite(cost);
      minPath' := closed;
    }
  }

  /** Lines 22-25: append `path + [i]` for every vertex `i` not on `path`, by increasing `i`. */
  method EnqueueChildren(n: nat, start: nat, path: seq<nat>, queue: seq<seq<nat>>)
    returns (queue': seq<seq<nat>>, ghost added: seq<seq<nat>>)
    requires Queued(n, start, path) && |path| != n
    ensures queue' == queue + added
    ensures AllQueued(n, start, added) && AllOfLength(added, |path| + 1)
    ensures Pending(n, added) == Extend(n, path) && Count(n, added) + 1 == Nodes(n, path)
    ensures |queue| <= |queue'| && queue'[..|queue|] == queue
    ensures Pending(n, queue'[|queue|..]) == Extend(n, path)
  {
    queue' := queue;
    added := [];
    for i: nat := 0 to n
      invariant queue' == queue + added
      invariant EnqueuedBelow(n, start, path, added, i)
    {
      if i !in path {
        var child := path + [i];
        EnqueueStep(n, start, path, added, i);
        Associative(queue, added, [child]);
        queue' := queue' + [child];
        added := added + [child];
      } else {
        EnqueueSkip(n, start, path, added, i);
      }
    }
    EnqueuedAll(n, start, path, added);
    assert queue'[..|queue|] == queue && queue'[|queue|..] == added;
  }

  /** `added` holds, in order, the children `path + [v]` for the vertices `v < i` not on `path`. */
  ghost predicate EnqueuedBelow(n: nat, start: nat, path: seq<nat>, added: seq<seq<nat>>, i: nat)
  {
    && (n == 0 ==> added == [])
    && AllQueued(n, start, added) && AllOfLength(added, |path| + 1)
    && (|path| < n ==> Pending(n, added) + Children(n, path, i) == Children(n, path, 0))
    && (|path| < n ==> Count(n, added) + ChildNodes(n, path, i) == ChildNodes(n, path, 0))
  }

  /** Appending the child `path + [i]` at the back of the queue advances the enumeration of `Children` by one vertex. */
  lemma EnqueueStep(n: nat, start: nat, path: seq<nat>, added: seq<seq<nat>>, i: nat)
    requires Queued(n, start, path) && |path| != n && i < n && i !in path
    requires EnqueuedBelow(n, start, path, added, i)
    ensures EnqueuedBelow(n, start, path, added + [path + [i]], i + 1)
  {
    var child := path + [i];
    ChildIsQueued(n, start, path, i);
    PendingAppend(n, added, [child]);
    Single(n, child);
    assert Children(n, path, i) == Extend(n, child) + Children(n, path, i + 1);
    assert ChildNodes(n, path, i) == Nodes(n, child) + ChildNodes(n, path, i + 1);
    Associative(Pending(n, added), Extend(n, child), Children(n, path, i + 1));
  }

  /** A vertex already on `path` contributes no child. */
  lemma EnqueueSkip(n: nat, start: nat, path: seq<nat>, added: seq<seq<nat>>, i: nat)
    requires Queued(n, start, path) && |path| != n && i < n && i in path
    requires EnqueuedBelow(n, start, path, added, i)
    ensures EnqueuedBelow(n, start, path, added, i + 1)
  {
    NoChildAt(n, start, path, i);
  }

  lemma NoChildAt(n: nat, start: nat, path: seq<nat>, i: nat)
    requires Queued(n, start, path) && |path| != n && i < n && i in path
    ensures |path| < n
    ensures Children(n, path, i) == Children(n, path, i + 1)
    ensures ChildNodes(n, path, i) == ChildNodes(n, path, i + 1)
  {
  }

  /** Once every vertex is considered, `added` holds exactly the children of `path`. */
  lemma EnqueuedAll(n: nat, start: nat, path: seq<nat>, added: seq<seq<nat>>)
    requires Queued(n, start, path) && |path| != n && EnqueuedBelow(n, start, path, added, n)
    ensures Pending(n, added) == Extend(n, path) && Count(n, added) + 1 == Nodes(n, path)
  {
  }

  /** Lines 43-46: push `path + [i]` for every vertex `i` not on `path`, from `n - 1` down to 0. */
  method PushChildren(n: nat, start: nat, path: seq<nat>, stack: seq<seq<nat>>)
    returns (stack': seq<seq<nat>>, ghost added: seq<seq<nat>>)
    requires Queued(n, start, path) && |path| != n
    ensures stack' == stack + added
    ensures AllQueued(n, start, added)
    ensures Stacked(n, added) == Extend(n, path) && Count(n, added) + 1 == Nodes(n, path)
    ensures |stack| <= |stack'| && stack'[..|stack|] == stack
    ensures Stacked(n, stack'[|stack|..]) == Extend(n, path)
  {
    stack' := stack;
    added := [];
    var i: int := n - 1;
    while i >= 0
      invariant -1 <= i < n
      invariant stack' == stack + added
      invariant PushedAbove(n, start, path, added, i + 1)
    {
      var v: nat := i;
      if v !in path {
        var child := path + [v];
        PushStep(n, start, path, added, v);
        Associative(stack, added, [child]);
        stack' := stack' + [child];
        added := added + [child];
      } else {
        PushSkip(n, start, path, added, v);
      }
      i := i - 1;
    }
    PushedAll(n, start, path, added);
    assert stack'[..|stack|] == stack && stack'[|stack|..] == added;
  }

  /** `added` holds the children `path + [v]` for the vertices `v >= i` not on `path`, the lowest on top. */
  ghost predicate PushedAbove(n: nat, start: nat, path: seq<nat>, added: seq<seq<nat>>, i: nat)
  {
    && (n == 0 ==> added == [])
    && AllQueued(n, start, added)
    && (|path| < n ==> Stacked(n, added) == Children(n, path, i))
    && (|path| < n ==> Count(n, added) == ChildNodes(n, path, i))
  }

  /** Pushing the child `path + [i]` on the stack puts its subtree ahead of those of the higher vertices. */
  lemma PushStep(n: nat, start: nat, path: seq<nat>, added: seq<seq<nat>>, i: nat)
    requires Queued(n, start, path) && |path| != n && i < n && i !in path
    requires PushedAbove(n, start, path, added, i + 1)
    ensures PushedAbove(n, start, path, added + [path + [i]], i)
  {
    var child := path + [i];
    ChildIsQueued(n, start, path, i);
    StackedAppend(n, added, [child]);
    PendingAppend(n, added, [child]);
    Single(n, child);
    assert Children(n, path, i) == Extend(n, child) + Children(n, path, i + 1);
    assert ChildNodes(n, path, i) == Nodes(n, child) + ChildNodes(n, path, i + 1);
  }

  /** A vertex already on `path` contributes no child. */
  lemma PushSkip(n: nat, start: nat, path: seq<nat>, added: seq<seq<nat>>, i: nat)
    requires Queued(n, start, path) && |path| != n && i < n && i in path
    requires PushedAbove(n, start, path, added, i + 1)
    ensures PushedAbove(n, start, path, added, i)
  {
    NoChildAt(n, start, path, i);
  }

  /** Once every vertex is considered, `added` holds exactly the children of `path`. */
  lemma PushedAll(n: nat, start: nat, path: seq<nat>, added: seq<seq<nat>>)
    requires Queued(n, start, path) && |path| != n && PushedAbove(n, start, path, added, 0)
    ensures Stacked(n, added) == Extend(n, path) && Count(n, added) + 1 == Nodes(n, path)
  {
  }

  /**
    The BFS queue is `fore + back`: paths of length `level`, then paths of
    length `level + 1`.  The tours already closed, then those under `back`,
    then those under `fore`, make up `all`.
   */
  ghost predicate FifoInvariant(n: nat, start: nat, queue: seq<seq<nat>>, fore: seq<seq<nat>>,
                                back: seq<seq<nat>>, level: nat, found: seq<seq<nat>>, all: seq<seq<nat>>)
  {
    && queue == fore + back
    && AllQueued(n, start, queue)
    && AllOfLength(fore, level) && AllOfLength(back, level + 1)
    && AllTours(n, start, found)
    && found + (Pending(n, back) + Pending(n, fore)) == all
  }

  /** Once the current level is used up, the next level becomes current. */
  lemma FifoNextLevel(n: nat, start: nat, queue: seq<seq<nat>>, fore: seq<seq<nat>>, back: seq<seq<nat>>,
                      level: nat, found: seq<seq<nat>>, all: seq<seq<nat>>)
    returns (fore': seq<seq<nat>>, back': seq<seq<nat>>, level': nat)
    requires FifoInvariant(n, start, queue, fore, back, level, found, all) && queue != []
    ensures FifoInvariant(n, start, queue, fore', back', level', found, all) && fore' != []
  {
    if fore == [] {
      fore', back', level' := back, [], level + 1;
      assert queue == fore' + back';
    } else {
      fore', back', level' := fore, back, level;
    }
  }

  /** Popping a complete path closes exactly the next tour. */
  lemma FifoCloseStep(n: nat, start: nat, queue: seq<seq<nat>>, fore: seq<seq<nat>>, back: seq<seq<nat>>,
                      level: nat, found: seq<seq<nat>>, all: seq<seq<nat>>)
    returns (fore': seq<seq<nat>>, back': seq<seq<nat>>, level': nat)
    requires FifoInvariant(n, start, queue, fore, back, level, found, all) && fore != []
    requires |queue[0]| == n
    ensures IsTour(n, start, queue[0])
    ensures FifoInvariant(n, start, queue[1..], fore', back', level', found + [queue[0]], all)
    ensures Count(n, queue[1..]) < Count(n, queue)
  {
    var path := queue[0];
    assert path in queue;
    fore', back', level' := fore[1..], back, level;
    // The next level would be longer than n, so nothing follows this one.
    assert fore[0] in fore;
    NoneLonger(n, start, fore, back, level + 1);
    PopFront(fore);
    Single(n, path);
    PendingAppend(n, [path], fore');
    Associative(found, [path], Pending(n, fore'));
  }

  /** Queued paths have at most `n` vertices, so there are none of a greater length. */
  lemma NoneLonger(n: nat, start: nat, fore: seq<seq<nat>>, back: seq<seq<nat>>, len: nat)
    requires AllQueued(n, start, fore + back) && AllOfLength(back, len) && 0 < n < len
    ensures back == []
  {
    EmptyOrHeadIn(back);
    assert forall p :: p in back ==> p in fore + back;
  }

  /** Replacing the head of the queue by its children at the back keeps the order in which tours are met. */
  lemma FifoExpandStep(n: nat, start: nat, queue: seq<seq<nat>>, added: seq<seq<nat>>, fore: seq<seq<nat>>,
                       back: seq<seq<nat>>, level: nat, found: seq<seq<nat>>, all: seq<seq<nat>>)
    returns (fore': seq<seq<nat>>, back': seq<seq<nat>>, level': nat)
    requires FifoInvariant(n, start, queue, fore, back, level, found, all) && fore != []
    requires AllQueued(n, start, added) && AllOfLength(added, |queue[0]| + 1)
    requires Pending(n, added) == Extend(n, queue[0]) && Count(n, added) + 1 == Nodes(n, queue[0])
    ensures FifoInvariant(n, start, queue[1..] + added, fore', back', level', found, all)
    ensures Count(n, queue[1..] + added) < Count(n, queue)
  {
    var path := queue[0];
    fore', back', level' := fore[1..], back + added, level;
    FifoExpandShape(n, start, queue, added, fore, back, level);
    PopFront(fore);
    FifoReorder(n, path, fore', back, added);
    CountExpand(n, queue, added);
  }

  /** After the replacement the queue still splits into a level and the next one. */
  lemma FifoExpandShape(n: nat, start: nat, queue: seq<seq<nat>>, added: seq<seq<nat>>, fore: seq<seq<nat>>,
                        back: seq<seq<nat>>, level: nat)
    requires queue == fore + back && fore != [] && AllQueued(n, start, queue)
    requires AllOfLength(fore, level) && AllOfLength(back, level + 1)
    requires AllQueued(n, start, added) && AllOfLength(added, |queue[0]| + 1)
    ensures queue[1..] + added == fore[1..] + (back + added)
    ensures AllQueued(n, start, queue[1..] + added)
    ensures AllOfLength(fore[1..], level) && AllOfLength(back + added, level + 1)
  {
    PopFront(fore);
    assert queue[1..] == fore[1..] + back;
    Associative(fore[1..], back, added);
    assert queue[0] in fore;
  }

  /** The tours under the queue `[path] + fore + back` come in the same order once `path` is replaced by `added` at the back. */
  lemma FifoReorder(n: nat, path: seq<nat>, fore: seq<seq<nat>>, back: seq<seq<nat>>, added: seq<seq<nat>>)
    requires Pending(n, added) == Extend(n, path)
    ensures Pending(n, back + added) + Pending(n, fore) == Pending(n, back) + Pending(n, [path] + fore)
  {
    assert ([path] + fore)[1..] == fore;
    PendingAppend(n, back, added);
    Associative(Pending(n, back), Extend(n, path), Pending(n, fore));
  }

  /** The work left shrinks when the head of the queue is replaced by its children. */
  lemma CountExpand(n: nat, queue: seq<seq<nat>>, added: seq<seq<nat>>)
    requires queue != [] && Count(n, added) + 1 == Nodes(n, queue[0])
    ensures Count(n, queue[1..] + added) < Count(n, queue)
  {
    PendingAppend(n, queue[1..], added);
  }

  /** The tours already closed, then those under the stack, top first, make up `all`. */
  ghost predicate LifoInvariant(n: nat, start: nat, stack: seq<seq<nat>>, found: seq<seq<nat>>, all: seq<seq<nat>>)
  {
    AllQueued(n, start, stack) && AllTours(n, start, found) && found + Stacked(n, stack) == all
  }

  /** Popping a complete path closes exactly the next tour. */
  lemma LifoCloseStep(n: nat, start: nat, stack: seq<seq<nat>>, found: seq<seq<nat>>, all: seq<seq<nat>>)
    requires LifoInvariant(n, start, stack, found, all) && stack != [] && |stack[|stack| - 1]| == n
    ensures IsTour(n, start, stack[|stack| - 1])
    ensures LifoInvariant(n, start, stack[..|stack| - 1], found + [stack[|stack| - 1]], all)
    ensures Count(n, stack[..|stack| - 1]) < Count(n, stack)
  {
    var path := stack[|stack| - 1];
    var rest := stack[..|stack| - 1];
    assert path in stack;
    PopBack(stack);
    StackedAppend(n, rest, [path]);
    PendingAppend(n, rest, [path]);
    Single(n, path);
    Associative(found, [path], Stacked(n, rest));
  }

  /** Replacing the top of the stack by its children keeps the order in which tours are met. */
  lemma LifoExpandStep(n: nat, start: nat, stack: seq<seq<nat>>, added: seq<seq<nat>>, found: seq<seq<nat>>,
                       all: seq<seq<nat>>)
    requires LifoInvariant(n, start, stack, found, all) && stack != []
    requires AllQueued(n, start, added)
    requires Stacked(n, added) == Extend(n, stack[|stack| - 1])
    requires Count(n, added) + 1 == Nodes(n, stack[|stack| - 1])
    ensures LifoInvariant(n, start, stack[..|stack| - 1] + added, found, all)
    ensures Count(n, stack[..|stack| - 1] + added) < Count(n, stack)
  {
    var path := stack[|stack| - 1];
    var rest := stack[..|stack| - 1];
    PopBack(stack);
    StackedAppend(n, rest, added);
    StackedAppend(n, rest, [path]);
    PendingAppend(n, rest, added);
    PendingAppend(n, rest, [path]);
    Single(n, path);
  }
}
