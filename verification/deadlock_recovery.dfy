/** Recovery from a detected deadlock by preemption: the first train of the
    cycle is the victim; it is forced out of the intersection it occupies, and
    the table of holder lists is brought up to date. The victim's route is not
    advanced: it has to ask for that intersection again. */
module DeadlockRecovery {
  import opened Base
  import opened Parsing
  import opened ResourceAllocation

  /** Trains by name. */
  type Trains = map<TrainId, Train>

  /** Holder lists by intersection name, as `getResourceGraph` produces them. */
  type ResourceTable = map<string, seq<TrainId>>

  /** Everything recovery may change. */
  datatype Recovery = Recovery(trains: Trains, table: Table, resources: ResourceTable)

  /** `getDeadlockCycle` as written: a stub whose cycle detection is still to
      be filled in. */
  function DeadlockCycleAsWritten(resources: ResourceTable): (cycle: seq<TrainId>)
    ensures |cycle| == 0
  {
    []
  }

  /** The sequence without any occurrence of `t`, the rest in order. */
  function RemoveAll(s: seq<TrainId>, t: TrainId): (r: seq<TrainId>)
    ensures t !in r
    ensures forall x :: x != t ==> multiset(r)[x] == multiset(s)[x]
    ensures |r| == |s| - multiset(s)[t]
    ensures t !in s ==> r == s
  {
    if s == [] then []
    else
      var rest := RemoveAll(s[1..], t);
      assert s == [s[0]] + s[1..];
      if s[0] == t then rest else [s[0]] + rest
  }

  /** Removal works piece by piece: removing from a concatenation is removing
      from each part, so the holders that stay keep their order. */
  lemma {:induction false} RemoveAllAppend(a: seq<TrainId>, b: seq<TrainId>, t: TrainId)
    ensures RemoveAll(a + b, t) == RemoveAll(a, t) + RemoveAll(b, t)
  {
    if a == [] {
      assert a + b == b;
    } else {
      RemoveAllCons(a, t);
      RemoveAllConsAppend(a, b, t);
      RemoveAllAppend(a[1..], b, t);
      Regroup(RemoveAll(a + b, t), RemoveAll([a[0]], t), RemoveAll(a[1..], t),
              RemoveAll(a[1..] + b, t), RemoveAll(b, t));
    }
  }

  /** Removal from a non-empty list: what happens to its first element, then
      removal from the rest. */
  lemma RemoveAllCons(s: seq<TrainId>, t: TrainId)
    requires s != []
    ensures RemoveAll(s, t) == RemoveAll([s[0]], t) + RemoveAll(s[1..], t)
  {
    RemoveAllSingle(s[0], t);
    if s[0] == t {
      assert RemoveAll(s, t) == RemoveAll(s[1..], t);
    } else {
      assert RemoveAll(s, t) == [s[0]] + RemoveAll(s[1..], t);
    }
  }

  /** The same split for a list followed by more holders. */
  lemma RemoveAllConsAppend(a: seq<TrainId>, b: seq<TrainId>, t: TrainId)
    requires a != []
    ensures RemoveAll(a + b, t) == RemoveAll([a[0]], t) + RemoveAll(a[1..] + b, t)
  {
    RemoveAllCons(a + b, t);
    assert (a + b)[1..] == a[1..] + b && (a + b)[0] == a[0];
  }

  /** A single holder is dropped when it is the victim and kept otherwise. */
  lemma RemoveAllSingle(x: TrainId, t: TrainId)
    ensures RemoveAll([x], t) == if x == t then [] else [x]
  {
    assert [x][1..] == [];
  }

  /** Preemption of one intersection: the victim is removed from the holders
      whatever the release protocol would say, and the counter follows. */
  function ForceRelease(i: Intersection, t: TrainId): (r: Intersection)
    ensures r.holders == RemoveAll(i.holders, t)
    ensures t !in r.holders
    ensures forall x :: x != t ==> multiset(r.holders)[x] == multiset(i.holders)[x]
    ensures r.name == i.name && r.capacity == i.capacity && r.waiting == i.waiting
    ensures i.Valid() ==> r.Valid() && r.trainCount == |i.holders| - multiset(i.holders)[t]
    ensures t !in i.holders ==> r == i
  {
    var kept := RemoveAll(i.holders, t);
    i.(holders := kept, trainCount := Wrap32(i.trainCount - (|i.holders| - |kept|)))
  }

  /** The intersection the victim currently occupies, when the victim is a known
      train whose location names an intersection of the table. */
  function HeldIntersection(trains: Trains, tab: Table, victim: TrainId): (loc: Option<string>)
    ensures loc.Some? ==> loc.value in tab && victim in trains && trains[victim].currentLocation == loc
    ensures loc.None? ==> victim !in trains || trains[victim].currentLocation.None? || trains[victim].currentLocation.value !in tab
  {
    if victim in trains && trains[victim].currentLocation.Some? && trains[victim].currentLocation.value in tab then
      trains[victim].currentLocation
    else
      None
  }

  /** `deadlockRecovery` for a given cycle, following the steps the source
      lays out: nothing to do for an empty cycle; otherwise the first train
      is the victim, it is forced out of the intersection it occupies, and that
      intersection's entry of the resource table is replaced by the new holder
      list. A victim that occupies nothing known leaves everything unchanged. */
  function Recover(cycle: seq<TrainId>, trains: Trains, tab: Table, resources: ResourceTable): (r: Recovery)
    ensures r.trains.Keys == trains.Keys && r.table.Keys == tab.Keys
    ensures cycle == [] ==> r == Recovery(trains, tab, resources)
    ensures cycle != [] && HeldIntersection(trains, tab, cycle[0]).None? ==> r == Recovery(trains, tab, resources)
    ensures forall n :: n in trains && (cycle == [] || n != cycle[0]) ==> r.trains[n] == trains[n]
    ensures cycle != [] && HeldIntersection(trains, tab, cycle[0]).Some? ==>
      var victim, loc := cycle[0], HeldIntersection(trains, tab, cycle[0]).value;
      && r.table[loc].holders == RemoveAll(tab[loc].holders, victim)
      && victim !in r.table[loc].holders
      && r.table[loc].name == tab[loc].name && r.table[loc].capacity == tab[loc].capacity
      && r.table[loc].waiting == tab[loc].waiting
      && (forall x :: x != victim ==> multiset(r.table[loc].holders)[x] == multiset(tab[loc].holders)[x])
      && (forall n :: n in tab && n != loc ==> r.table[n] == tab[n])
      && r.trains[victim] == trains[victim].(currentLocation := None)
      && r.resources == resources[loc := r.table[loc].holders]
  {
    if cycle == [] then
      Recovery(trains, tab, resources)
    else
      var victim := cycle[0];
      match HeldIntersection(trains, tab, victim)
      case None => Recovery(trains, tab, resources)
      case Some(loc) =>
        var freed := ForceRelease(tab[loc], victim);
        Recovery(
          trains[victim := trains[victim].(currentLocation := None)],
          tab[loc := freed],
          resources[loc := freed.holders])
  }

  /** `deadlockRecovery` as written: it asks the stub for the cycle, which is
      always empty, so it never changes anything. */
  function DeadlockRecoveryAsWritten(trains: Trains, tab: Table, resources: ResourceTable): (r: Recovery)
    ensures r == Recovery(trains, tab, resources)
  {
    Recover(DeadlockCycleAsWritten(resources), trains, tab, resources)
  }

  /** Recovery keeps every intersection consistent and filed under its name. */
  lemma RecoveryKeepsTableValid(cycle: seq<TrainId>, trains: Trains, tab: Table, resources: ResourceTable)
    requires AllValid(tab) && WellKeyed(tab)
    ensures AllValid(Recover(cycle, trains, tab, resources).table)
    ensures WellKeyed(Recover(cycle, trains, tab, resources).table)
  {
  }

  /** A resource table that was a snapshot of the intersections before recovery
      is a snapshot of them after it. */
  lemma RecoveryKeepsSnapshot(cycle: seq<TrainId>, trains: Trains, tab: Table, resources: ResourceTable)
    requires resources == Snapshot(tab)
    ensures Recover(cycle, trains, tab, resources).resources == Snapshot(Recover(cycle, trains, tab, resources).table)
  {
  }

  /** Recovery breaks the cycle it was given: once the victim has left the one
      intersection it held, no train waits on it any more, so the edge that
      closed the cycle into the victim is gone from the rebuilt waiting graph. */
  lemma RecoveryBreaksCycle(c: seq<TrainId>, trains: Trains, tab: Table, resources: ResourceTable, order: seq<string>)
    requires forall n :: n in order <==> n in tab
    requires IsCycle(BuildWaitingGraph(tab, order), c)
    requires HeldIntersection(trains, tab, c[0]).Some?
    requires forall n :: n in tab && Some(n) != HeldIntersection(trains, tab, c[0]) ==> c[0] !in tab[n].holders
    ensures !IsCycle(BuildWaitingGraph(Recover(c, trains, tab, resources).table, order), c)
  {
  }
}
