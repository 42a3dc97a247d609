/** Deadlock detection of the coordinator: a depth-first search over the
    waiting graph from every unvisited train, with a visited set and a
    recursion stack (`detectDeadlock` and `isCyclicUtil`). Nodes are train
    names. The recursion stack is kept as the path from the root of the search
    to the current train, so that a train found on it closes a cycle that can
    be handed back. */
module DeadlockDetection {
  import opened Base
  import opened Parsing
  import opened ResourceAllocation

  /** Every train the graph mentions, as a key or as a successor. */
  function Nodes(g: Graph): set<TrainId> {
    g.Keys + set a, b | a in g && b in g[a] :: b
  }

  /** Trains whose search has completed: visited and no longer on the stack. */
  function Finished(visited: set<TrainId>, stack: seq<TrainId>): set<TrainId> {
    visited - set x | x in stack
  }

  /** No edge leaves `s`. */
  ghost predicate Closed(g: Graph, s: set<TrainId>) {
    forall a, b :: a in s && Edge(g, a, b) ==> b in s
  }

  /** No cycle lies entirely inside `s`. */
  ghost predicate CycleFreeWithin(g: Graph, s: set<TrainId>) {
    forall c :: IsCycle(g, c) ==> exists k :: 0 <= k < |c| && c[k] !in s
  }

  /** The outcome of a search: a cycle was found (the source returns `true`);
      the search completed with the given visited set and recursion stack (the
      source returns `false`); or `graph.at` was applied to a train that is not
      a key of the graph, which throws `std::out_of_range`. */
  datatype Search =
    | Found(cycle: seq<TrainId>)
    | Done(visited: set<TrainId>, stack: seq<TrainId>)
    | OutOfRange(node: TrainId)

  /** `isCyclicUtil(n)`: marks `n` visited, pushes it, searches its successors,
      and pops it again when no cycle was found. With `atThrows`, the
      successors are read with `graph.at(n)` as written, which throws for a
      train that is not a key; otherwise such a train has no successors. */
  function Visit(g: Graph, atThrows: bool, n: TrainId, visited: set<TrainId>, stack: seq<TrainId>): (r: Search)
    requires n in Nodes(g) && n !in visited
    requires forall k :: 0 <= k < |stack| ==> stack[k] in visited
    requires IsWalk(g, stack + [n])
    requires Closed(g, Finished(visited, stack)) && CycleFreeWithin(g, Finished(visited, stack))
    ensures r.Found? ==> IsCycle(g, r.cycle)
    ensures r.OutOfRange? ==> atThrows && r.node in Nodes(g) && r.node !in g
    ensures r.Done? ==> r.stack == stack && visited + {n} <= r.visited
    ensures r.Done? ==> Closed(g, Finished(r.visited, stack)) && CycleFreeWithin(g, Finished(r.visited, stack))
    decreases |Nodes(g) - visited|, 0
  {
    if atThrows && n !in g then OutOfRange(n)
    else
      UnvisitedShrinks(Nodes(g), visited, n);
      PushKeepsFinished(visited, stack, n);
      var r := VisitSuccessors(g, atThrows, n, 0, visited + {n}, stack + [n]);
      if r.Done? then
        PopFinishes(r.visited, stack, n);
        FinishNode(g, Finished(r.visited, stack + [n]), n);
        assert r.stack[..|r.stack| - 1] == stack;
        Done(r.visited, stack)
      else
        r
  }

  /** The loop of `isCyclicUtil` over the successors of `n` from position `i`
      on: an unvisited successor is searched; a successor on the recursion
      stack closes a cycle. `stack` already ends with `n`. */
  function VisitSuccessors(g: Graph, atThrows: bool, n: TrainId, i: nat, visited: set<TrainId>, stack: seq<TrainId>): (r: Search)
    requires |stack| > 0 && stack[|stack| - 1] == n
    requires i <= |Successors(g, n)|
    requires forall k :: 0 <= k < |stack| ==> stack[k] in visited
    requires IsWalk(g, stack)
    requires Closed(g, Finished(visited, stack)) && CycleFreeWithin(g, Finished(visited, stack))
    requires forall j :: 0 <= j < i ==> Successors(g, n)[j] in Finished(visited, stack)
    ensures r.Found? ==> IsCycle(g, r.cycle)
    ensures r.OutOfRange? ==> atThrows && r.node in Nodes(g) && r.node !in g
    ensures r.Done? ==> r.stack == stack && visited <= r.visited
    ensures r.Done? ==> Closed(g, Finished(r.visited, stack)) && CycleFreeWithin(g, Finished(r.visited, stack))
    ensures r.Done? ==> forall b :: Edge(g, n, b) ==> b in Finished(r.visited, stack)
    decreases |Nodes(g) - visited|, 1, |Successors(g, n)| - i
  {
    var succ := Successors(g, n);
    if i == |succ| then
      assert forall b :: Edge(g, n, b) ==> b in succ;
      Done(visited, stack)
    else
      var m := succ[i];
      assert Edge(g, n, m) && m in Nodes(g);
      if m in visited then
        if m in stack then
          var k := IndexOf(stack, m);
          CycleOnStack(g, stack, k);
          Found(stack[k..])
        else
          FinishedPrefixGrows(succ, i, visited, visited, stack);
          VisitSuccessors(g, atThrows, n, i + 1, visited, stack)
      else
        var step := Visit(g, atThrows, m, visited, stack);
        if !step.Done? then
          step
        else
          UnvisitedMonotone(Nodes(g), visited, step.visited);
          FinishedPrefixGrows(succ, i, visited, step.visited, stack);
          VisitSuccessors(g, atThrows, n, i + 1, step.visited, stack)
  }

  /** `detectDeadlock`'s loop over the keys in iteration order `order`,
      starting a search from every train not yet visited. */
  function DetectFrom(g: Graph, atThrows: bool, order: seq<TrainId>, i: nat, visited: set<TrainId>): (r: Search)
    requires forall n :: n in order ==> n in g
    requires i <= |order|
    requires forall j :: 0 <= j < i ==> order[j] in visited
    requires Closed(g, visited) && CycleFreeWithin(g, visited)
    ensures r.Found? ==> IsCycle(g, r.cycle)
    ensures r.OutOfRange? ==> atThrows && r.node in Nodes(g) && r.node !in g
    ensures r.Done? ==> visited <= r.visited && forall n :: n in order ==> n in r.visited
    ensures r.Done? ==> Closed(g, r.visited) && CycleFreeWithin(g, r.visited)
    decreases |order| - i
  {
    if i == |order| then
      Done(visited, [])
    else if order[i] in visited then
      DetectFrom(g, atThrows, order, i + 1, visited)
    else
      assert Finished(visited, []) == visited;
      var r := Visit(g, atThrows, order[i], visited, []);
      if r.Done? then
        assert Finished(r.visited, []) == r.visited;
        DetectFrom(g, atThrows, order, i + 1, r.visited)
      else
        r
  }

  /** The cycle the corrected detector finds, if any, searching from the keys
      in iteration order `order`: it is a genuine cycle of the graph, and none
      is found only when the graph has no cycle at all. */
  function FindCycle(g: Graph, order: seq<TrainId>): (r: Option<seq<TrainId>>)
    requires forall n :: n in order <==> n in g
    ensures r.Some? ==> IsCycle(g, r.value)
    ensures r.None? <==> !HasCycle(g)
  {
    var s := DetectFrom(g, false, order, 0, {});
    if s.Found? then
      Some(s.cycle)
    else
      assert !HasCycle(g) by {
        forall c | IsCycle(g, c)
          ensures false
        {
          CycleNodesAreKeys(g, c);
        }
      }
      None
  }

  /** `detectDeadlock` with a missing successor list read as empty: true
      exactly when the waiting graph has a cycle. */
  function DetectDeadlock(g: Graph, order: seq<TrainId>): (deadlocked: bool)
    requires forall n :: n in order <==> n in g
    ensures deadlocked <==> HasCycle(g)
    ensures g == map[] ==> !deadlocked
  {
    FindCycle(g, order).Some?
  }

  /** `detectDeadlock` as written, with `graph.at`: `None` stands for the
      `std::out_of_range` it throws. When it answers, the answer is right; it
      throws only on a train that has no successor list, so never when every
      train in the graph is a key. */
  function DetectDeadlockAsWritten(g: Graph, order: seq<TrainId>): (r: Option<bool>)
    requires forall n :: n in order <==> n in g
    ensures r == Some(true) ==> HasCycle(g)
    ensures r == Some(false) ==> !HasCycle(g)
    ensures (forall n :: n in Nodes(g) ==> n in g) ==> r.Some?
  {
    var s := DetectFrom(g, true, order, 0, {});
    match s
    case Found(_) => Some(true)
    case Done(_, _) =>
      assert !HasCycle(g) by {
        forall c | IsCycle(g, c)
          ensures false
        {
          CycleNodesAreKeys(g, c);
        }
      }
      Some(false)
    case OutOfRange(_) => None
  }

  /** One waiter and one holder that waits on nothing: the search as written
      reaches the holder and throws, where the corrected search reports no
      deadlock. */
  lemma AsWrittenThrowsOnHolder()
    ensures DetectDeadlockAsWritten(map["T1" := ["T2"]], ["T1"]) == None
    ensures !DetectDeadlock(map["T1" := ["T2"]], ["T1"])
  {
    var g: Graph := map["T1" := ["T2"]];
    assert "T2" != "T1";
    assert "T2" !in g;
    assert "T2" in g["T1"];
    assert "T1" in Nodes(g) && "T2" in Nodes(g);
    var inner := Visit(g, true, "T2", {"T1"}, ["T1"]);
    assert inner == OutOfRange("T2");
    var succ := VisitSuccessors(g, true, "T1", 0, {"T1"}, ["T1"]);
    assert succ == OutOfRange("T2");
    assert Visit(g, true, "T1", {}, []) == OutOfRange("T2");
    assert DetectFrom(g, true, ["T1"], 0, {}) == OutOfRange("T2");
    assert !HasCycle(g) by {
      forall c | IsCycle(g, c)
        ensures false
      {
        CycleNodesAreKeys(g, c);
      }
    }
  }

  // ---------------------------------------------------------------------------
  // Proof steps
  // ---------------------------------------------------------------------------

  /** Every train on a cycle has a successor list. */
  lemma CycleNodesAreKeys(g: Graph, c: seq<TrainId>)
    requires IsCycle(g, c)
    ensures forall k :: 0 <= k < |c| ==> c[k] in g
  {
    forall k | 0 <= k < |c|
      ensures c[k] in g
    {
      if k < |c| - 1 {
        assert Edge(g, c[k], c[k + 1]);
      }
    }
  }

  /** A train found again on the recursion stack closes a cycle: the stack from
      that train to the current one, whose edge leads back to it. */
  lemma CycleOnStack(g: Graph, stack: seq<TrainId>, k: nat)
    requires IsWalk(g, stack)
    requires k < |stack|
    requires Edge(g, stack[|stack| - 1], stack[k])
    ensures IsCycle(g, stack[k..])
  {
    var c := stack[k..];
    forall j | 0 <= j < |c| - 1
      ensures Edge(g, c[j], c[j + 1])
    {
      assert c[j] == stack[k + j] && c[j + 1] == stack[k + j + 1];
    }
  }

  /** A train whose successors have all finished can itself finish: the
      finished set stays closed under edges and free of cycles. */
  lemma FinishNode(g: Graph, done: set<TrainId>, n: TrainId)
    requires Closed(g, done) && CycleFreeWithin(g, done)
    requires n !in done
    requires forall b :: Edge(g, n, b) ==> b in done
    ensures Closed(g, done + {n}) && CycleFreeWithin(g, done + {n})
  {
    forall c | IsCycle(g, c)
      ensures exists k :: 0 <= k < |c| && c[k] !in done + {n}
    {
      var k :| 0 <= k < |c| && c[k] !in done;
      if c[k] == n {
        var p := if k == 0 then |c| - 1 else k - 1;
        assert Edge(g, c[p], c[k]);
        assert c[p] !in done + {n};
      }
    }
  }

  /** Pushing a newly visited train leaves the finished set as it was. */
  lemma PushKeepsFinished(visited: set<TrainId>, stack: seq<TrainId>, n: TrainId)
    requires n !in visited
    ensures Finished(visited + {n}, stack + [n]) == Finished(visited, stack)
  {
    assert (set x | x in stack + [n]) == (set x | x in stack) + {n};
  }

  /** Popping a visited train finishes it. */
  lemma PopFinishes(visited: set<TrainId>, stack: seq<TrainId>, n: TrainId)
    requires n in visited && n !in stack
    ensures Finished(visited, stack) == Finished(visited, stack + [n]) + {n}
  {
    assert (set x | x in stack + [n]) == (set x | x in stack) + {n};
  }

  /** The successors handled so far stay finished as the search goes on, and
      the one just handled joins them. */
  lemma FinishedPrefixGrows(succ: seq<TrainId>, i: nat, visited: set<TrainId>, more: set<TrainId>, stack: seq<TrainId>)
    requires i < |succ|
    requires forall j :: 0 <= j < i ==> succ[j] in Finished(visited, stack)
    requires visited <= more && succ[i] in more && succ[i] !in stack
    ensures forall j :: 0 <= j <= i ==> succ[j] in Finished(more, stack)
  {
  }

  /** Visiting a new node shrinks the set of unvisited nodes. */
  lemma UnvisitedShrinks(nodes: set<TrainId>, visited: set<TrainId>, n: TrainId)
    requires n in nodes && n !in visited
    ensures |nodes - (visited + {n})| < |nodes - visited|
  {
    assert nodes - (visited + {n}) == (nodes - visited) - {n};
  }

  /** Visiting more never grows the set of unvisited nodes. */
  lemma UnvisitedMonotone(nodes: set<TrainId>, visited: set<TrainId>, more: set<TrainId>)
    requires visited <= more
    ensures |nodes - more| <= |nodes - visited|
  {
    SubsetCard(nodes - more, nodes - visited);
  }

  lemma SubsetCard<T>(a: set<T>, b: set<T>)
    requires a <= b
    ensures |a| <= |b|
  {
    assert b == a + (b - a);
  }
}
