/** The coordinator's table of intersections by name, the delegation of
    acquire and release to the named intersection, the holder snapshot
    (`getResourceGraph`) and the waiting graph (`buildWaitingGraph`), together
    with the graph vocabulary the deadlock detector works in. */
module ResourceAllocation {
  import opened Base
  import opened Parsing

  /** `intersectionMap`: intersections by name. */
  type Table = map<string, Intersection>

  /** A graph over trains: each key lists the trains it points to, in order and
      with repetitions, as the source's `unordered_map<string, vector<string>>`. */
  type Graph = map<TrainId, seq<TrainId>>

  /** Every intersection is filed under its own name. */
  predicate WellKeyed(tab: Table) {
    forall n :: n in tab ==> tab[n].name == n
  }

  /** Every intersection's counter agrees with its holders and respects its capacity. */
  predicate AllValid(tab: Table) {
    forall n :: n in tab ==> tab[n].Valid()
  }

  /** `addIntersection`: files the intersection under its name, replacing any
      intersection of the same name; the other entries stay as they were. */
  function AddIntersection(tab: Table, i: Intersection): (r: Table)
    ensures r.Keys == tab.Keys + {i.name}
    ensures r[i.name] == i
    ensures forall n :: n in tab && n != i.name ==> r[n] == tab[n]
    ensures WellKeyed(tab) ==> WellKeyed(r)
    ensures AllValid(tab) && i.Valid() ==> AllValid(r)
  {
    tab[i.name := i]
  }

  /** The table's `acquire`: the named intersection's own acquire; an unknown
      name is refused and changes nothing. No other intersection changes. */
  function Acquire(tab: Table, name: string, t: TrainId): (r: Attempt<Table>)
    ensures r.state.Keys == tab.Keys
    ensures forall n :: n in tab && n != name ==> r.state[n] == tab[n]
    ensures r.ok <==> name in tab && tab[name].IsOpen()
    ensures name in tab ==> r.ok == Parsing.Acquire(tab[name], t).ok && r.state[name] == Parsing.Acquire(tab[name], t).state
    ensures name !in tab ==> r.state == tab
    ensures WellKeyed(tab) ==> WellKeyed(r.state)
    ensures AllValid(tab) ==> AllValid(r.state)
  {
    if name in tab then
      var a := Parsing.Acquire(tab[name], t);
      Attempt(a.ok, tab[name := a.state])
    else
      Attempt(false, tab)
  }

  /** The table's `release`: the named intersection's own release; an unknown
      name is refused and changes nothing. No other intersection changes. */
  function Release(tab: Table, name: string, t: TrainId): (r: Attempt<Table>)
    ensures r.state.Keys == tab.Keys
    ensures forall n :: n in tab && n != name ==> r.state[n] == tab[n]
    ensures r.ok <==> name in tab && t in tab[name].holders
    ensures name in tab ==> r.ok == Parsing.Release(tab[name], t).ok && r.state[name] == Parsing.Release(tab[name], t).state
    ensures !r.ok ==> r.state == tab
    ensures WellKeyed(tab) ==> WellKeyed(r.state)
    ensures AllValid(tab) ==> AllValid(r.state)
  {
    if name in tab then
      var a := Parsing.Release(tab[name], t);
      Attempt(a.ok, tab[name := a.state])
    else
      Attempt(false, tab)
  }

  /** `getResourceGraph`: for every intersection, the names of its holders in
      the order they entered. */
  function Snapshot(tab: Table): (snap: map<string, seq<TrainId>>)
    ensures snap.Keys == tab.Keys
    ensures forall n :: n in snap ==> snap[n] == tab[n].holders
    ensures AllValid(tab) ==> forall n :: n in snap ==> |snap[n]| == tab[n].trainCount <= tab[n].capacity
  {
    map n | n in tab :: tab[n].holders
  }

  /** A granted acquire shows in the snapshot as the train appended to that
      one holder list; a refused one does not show at all. */
  lemma SnapshotAfterAcquire(tab: Table, name: string, t: TrainId)
    ensures var r := Acquire(tab, name, t);
      Snapshot(r.state) == if r.ok then Snapshot(tab)[name := Snapshot(tab)[name] + [t]] else Snapshot(tab)
  {
  }

  /** A granted release shows in the snapshot as one occurrence of the train
      gone from that one holder list; a refused one does not show at all. */
  lemma SnapshotAfterRelease(tab: Table, name: string, t: TrainId)
    ensures var r := Release(tab, name, t);
      && Snapshot(r.state).Keys == Snapshot(tab).Keys
      && (forall n :: n in tab && n != name ==> Snapshot(r.state)[n] == Snapshot(tab)[n])
      && (r.ok ==> multiset(Snapshot(r.state)[name]) == multiset(Snapshot(tab)[name]) - multiset{t})
      && (!r.ok ==> Snapshot(r.state) == Snapshot(tab))
  {
  }

  // ---------------------------------------------------------------------------
  // Graphs over trains
  // ---------------------------------------------------------------------------

  /** The trains `a` points to; none when `a` is not a key. */
  function Successors(g: Graph, a: TrainId): seq<TrainId> {
    if a in g then g[a] else []
  }

  predicate Edge(g: Graph, a: TrainId, b: TrainId) {
    a in g && b in g[a]
  }

  /** Consecutive elements are joined by edges. */
  predicate IsWalk(g: Graph, p: seq<TrainId>) {
    forall k :: 0 <= k < |p| - 1 ==> Edge(g, p[k], p[k + 1])
  }

  /** A closed walk: each train waits on the next, and the last on the first. */
  predicate IsCycle(g: Graph, c: seq<TrainId>) {
    |c| > 0 && IsWalk(g, c) && Edge(g, c[|c| - 1], c[0])
  }

  ghost predicate HasCycle(g: Graph) {
    exists c :: IsCycle(g, c)
  }

  // ---------------------------------------------------------------------------
  // The waiting graph
  // ---------------------------------------------------------------------------

  /** Train `a` waits on an intersection that train `b` holds. */
  ghost predicate WaitsFor(tab: Table, a: TrainId, b: TrainId) {
    exists n :: n in tab && a in tab[n].waiting && b in tab[n].holders
  }

  /** Train `a` waits on an intersection that somebody holds. */
  ghost predicate BlockedByHolder(tab: Table, a: TrainId) {
    exists n :: n in tab && a in tab[n].waiting && tab[n].holders != []
  }

  /** `graph[w].push_back(h)` for every holder `h` in turn: the key `w` is
      created only by the first push. */
  function AddEdges(g: Graph, w: TrainId, hs: seq<TrainId>): (r: Graph)
    ensures forall a, b :: Edge(r, a, b) <==> Edge(g, a, b) || (a == w && b in hs)
    ensures forall a :: a in r <==> a in g || (a == w && hs != [])
  {
    if hs == [] then g else g[w := Successors(g, w) + hs]
  }

  /** The edges of one intersection: every waiter to every holder. */
  function AddWaiters(g: Graph, ws: seq<TrainId>, hs: seq<TrainId>): (r: Graph)
    ensures forall a, b :: Edge(r, a, b) <==> Edge(g, a, b) || (a in ws && b in hs)
    ensures forall a :: a in r <==> a in g || (a in ws && hs != [])
    decreases |ws|
  {
    if ws == [] then g
    else
      assert forall a :: a in ws <==> a == ws[0] || a in ws[1..];
      AddWaiters(AddEdges(g, ws[0], hs), ws[1..], hs)
  }

  /** The edges of the intersections in `order`, visited in that order. */
  function BuildFrom(tab: Table, order: seq<string>, g: Graph): (r: Graph)
    requires forall n :: n in order ==> n in tab
    ensures forall a, b :: Edge(r, a, b) <==>
      Edge(g, a, b) || exists j :: 0 <= j < |order| && a in tab[order[j]].waiting && b in tab[order[j]].holders
    ensures forall a :: a in r <==>
      a in g || exists j :: 0 <= j < |order| && a in tab[order[j]].waiting && tab[order[j]].holders != []
    decreases |order|
  {
    if order == [] then g
    else
      var i := tab[order[0]];
      var r := BuildFrom(tab, order[1..], AddWaiters(g, i.waiting, i.holders));
      assert forall j :: 0 < j < |order| ==> order[j] == order[1..][j - 1];
      r
  }

  /** `buildWaitingGraph`, with the table's iteration order given as `order`,
      a listing of its names: an edge from `a` to `b` exactly when `a` waits on
      an intersection `b` holds, and a key for exactly the trains that wait on
      an intersection with at least one holder. */
  function BuildWaitingGraph(tab: Table, order: seq<string>): (g: Graph)
    requires forall n :: n in order <==> n in tab
    ensures forall a, b :: Edge(g, a, b) <==> WaitsFor(tab, a, b)
    ensures forall a :: a in g <==> BlockedByHolder(tab, a)
  {
    var g := BuildFrom(tab, order, map[]);
    assert forall a, b :: WaitsFor(tab, a, b) ==> Edge(g, a, b) by {
      forall a, b | WaitsFor(tab, a, b)
        ensures Edge(g, a, b)
      {
        var n :| n in tab && a in tab[n].waiting && b in tab[n].holders;
        var j :| 0 <= j < |order| && order[j] == n;
      }
    }
    assert forall a :: BlockedByHolder(tab, a) ==> a in g by {
      forall a | BlockedByHolder(tab, a)
        ensures a in g
      {
        var n :| n in tab && a in tab[n].waiting && tab[n].holders != [];
        var j :| 0 <= j < |order| && order[j] == n;
      }
    }
    g
  }

  // ---------------------------------------------------------------------------
  // Multiplicity of waiting-graph entries
  // ---------------------------------------------------------------------------

  /** The number of (waiter, holder) pairs `(a, b)` the intersections in
      `order` contribute: each occurrence of `a` among an intersection's
      waiters, paired with each occurrence of `b` among its holders. */
  function PairCount(tab: Table, order: seq<string>, a: TrainId, b: TrainId): nat
    requires forall n :: n in order ==> n in tab
    decreases |order|
  {
    if order == [] then 0
    else
      var i := tab[order[0]];
      multiset(i.waiting)[a] * multiset(i.holders)[b] + PairCount(tab, order[1..], a, b)
  }

  lemma AddEdgesCount(g: Graph, w: TrainId, hs: seq<TrainId>, a: TrainId, b: TrainId)
    ensures multiset(Successors(AddEdges(g, w, hs), a))[b]
         == multiset(Successors(g, a))[b] + (if a == w then multiset(hs)[b] else 0)
  {
  }

  lemma {:induction false} AddWaitersCount(g: Graph, ws: seq<TrainId>, hs: seq<TrainId>, a: TrainId, b: TrainId)
    ensures multiset(Successors(AddWaiters(g, ws, hs), a))[b]
         == multiset(Successors(g, a))[b] + multiset(ws)[a] * multiset(hs)[b]
    decreases |ws|
  {
    if ws != [] {
      var g1 := AddEdges(g, ws[0], hs);
      assert AddWaiters(g, ws, hs) == AddWaiters(g1, ws[1..], hs);
      AddEdgesCount(g, ws[0], hs, a, b);
      AddWaitersCount(g1, ws[1..], hs, a, b);
      assert ws == [ws[0]] + ws[1..];
      var x := multiset(ws[1..])[a];
      assert multiset(ws)[a] == x + (if ws[0] == a then 1 else 0);
      MulSucc(x, multiset(hs)[b]);
    }
  }

  lemma MulSucc(x: int, y: int)
    ensures (x + 1) * y == x * y + y
  {
  }

  lemma {:induction false} BuildFromCount(tab: Table, order: seq<string>, g: Graph, a: TrainId, b: TrainId)
    requires forall n :: n in order ==> n in tab
    ensures multiset(Successors(BuildFrom(tab, order, g), a))[b]
         == multiset(Successors(g, a))[b] + PairCount(tab, order, a, b)
    decreases |order|
  {
    if order != [] {
      var i := tab[order[0]];
      AddWaitersCount(g, i.waiting, i.holders, a, b);
      BuildFromCount(tab, order[1..], AddWaiters(g, i.waiting, i.holders), a, b);
    }
  }

  /** `buildWaitingGraph` lists `b` among `a`'s successors once for every
      pair of an occurrence of `a` among an intersection's waiters and an
      occurrence of `b` among its holders: no pair is lost or merged. */
  lemma WaitingGraphCount(tab: Table, order: seq<string>, a: TrainId, b: TrainId)
    requires forall n :: n in order <==> n in tab
    ensures multiset(Successors(BuildWaitingGraph(tab, order), a))[b] == PairCount(tab, order, a, b)
  {
    BuildFromCount(tab, order, map[], a, b);
  }
}
