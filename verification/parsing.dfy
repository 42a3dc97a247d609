/** Intersections (the shared, capacity-bounded resources), trains, and the
    per-line parsing of the two configuration files. The pthread mutex and the
    POSIX semaphore inside an intersection are represented by what they guard:
    the holder count `trainCount` and the holder list `holders`. */
module Parsing {
  import opened Base

  /** A train is identified by its name, the key of the train table. */
  type TrainId = string

  /** An intersection. `is_mutex` is not stored: it is `capacity == 1` from
      construction on, and the capacity never changes. `waiting` is the list of
      trains waiting to enter, read when the waiting graph is built. */
  datatype Intersection = Intersection(
    name: string,
    capacity: u32,
    trainCount: u32,
    holders: seq<TrainId>,
    waiting: seq<TrainId>)
  {
    /** Mutex semantics (one holder) rather than counting-semaphore semantics. */
    predicate IsMutex() {
      capacity == 1
    }

    /** The bookkeeping invariant: the counter agrees with the holder list and
        never exceeds the capacity. */
    predicate Valid() {
      trainCount == |holders| && trainCount <= capacity
    }

    /** Whether another train could enter now. For a consistent intersection this
        is "fewer holders than capacity", whichever of the two semantics applies. */
    function IsOpen(): (open: bool)
      ensures Valid() ==> (open <==> |holders| < capacity)
      ensures Valid() && IsMutex() ==> (open <==> holders == [])
    {
      if IsMutex() then trainCount == 0 else trainCount < capacity
    }
  }

  /** A train: its name, the intersections of its route in order, and the
      intersection it currently occupies, if any. */
  datatype Train = Train(name: TrainId, route: seq<string>, currentLocation: Option<string>)

  /** A freshly constructed intersection: nobody inside, nobody waiting. */
  function NewIntersection(name: string, capacity: u32): (i: Intersection)
    ensures i.Valid() && i.name == name && i.capacity == capacity
    ensures i.holders == [] && i.waiting == []
    ensures i.IsOpen() <==> capacity > 0
  {
    Intersection(name, capacity, 0, [], [])
  }

  /** `Intersection::acquire`: a mutex admits a train only when empty, a
      semaphore only while below capacity. A refused train leaves no trace. */
  function Acquire(i: Intersection, t: TrainId): (r: Attempt<Intersection>)
    ensures r.ok <==> i.IsOpen()
    ensures i.Valid() ==> (r.ok <==> |i.holders| < i.capacity)
    ensures r.ok ==> r.state.holders == i.holders + [t] && r.state.trainCount == i.trainCount + 1
    ensures !r.ok ==> r.state == i
    ensures r.state.name == i.name && r.state.capacity == i.capacity && r.state.waiting == i.waiting
    ensures i.Valid() ==> r.state.Valid()
  {
    if i.IsMutex() then
      if i.trainCount == 0 then
        Attempt(true, i.(holders := i.holders + [t], trainCount := i.trainCount + 1))
      else
        Attempt(false, i)
    else
      if i.trainCount < i.capacity then
        Attempt(true, i.(holders := i.holders + [t], trainCount := i.trainCount + 1))
      else
        Attempt(false, i)
  }

  /** The sequence without its element at position `k`, the others in order
      (`vector::erase` at one position). */
  function EraseAt(s: seq<TrainId>, k: nat): (r: seq<TrainId>)
    requires k < |s|
    ensures |r| == |s| - 1
    ensures s == r[..k] + [s[k]] + r[k..]
    ensures multiset(r) == multiset(s) - multiset{s[k]}
  {
    var before, after := s[..k], s[k + 1..];
    assert s == before + [s[k]] + after;
    assert (before + after)[..k] == before && (before + after)[k..] == after;
    before + after
  }

  /** `Intersection::release`: the first occurrence of the train is erased and
      the counter decremented (as an `unsigned int`); a train that is not inside
      is reported as an error and nothing changes. */
  function Release(i: Intersection, t: TrainId): (r: Attempt<Intersection>)
    ensures r.ok <==> t in i.holders
    ensures !r.ok ==> r.state == i
    ensures r.ok ==> |r.state.holders| == |i.holders| - 1
    ensures r.ok ==>
      var k := IndexOf(i.holders, t);
      && t !in r.state.holders[..k]
      && i.holders == r.state.holders[..k] + [t] + r.state.holders[k..]
    ensures r.ok ==> multiset(r.state.holders) == multiset(i.holders) - multiset{t}
    ensures r.state.name == i.name && r.state.capacity == i.capacity && r.state.waiting == i.waiting
    ensures i.Valid() ==> r.state.Valid() && (r.ok ==> r.state.trainCount == i.trainCount - 1)
  {
    var k := IndexOf(i.holders, t);
    if k < |i.holders| then
      var rest := EraseAt(i.holders, k);
      assert rest[..k] == i.holders[..k];
      Attempt(true, i.(holders := rest, trainCount := Wrap32(i.trainCount - 1)))
    else
      Attempt(false, i)
  }

  /** Entering and then leaving again restores the intersection exactly, for a
      train that was not already inside. */
  lemma AcquireReleaseRoundTrip(i: Intersection, t: TrainId)
    requires Acquire(i, t).ok && t !in i.holders
    ensures Release(Acquire(i, t).state, t) == Attempt(true, i)
  {
    var after := Acquire(i, t).state;
    assert after.holders == i.holders + [t] && after.trainCount == i.trainCount + 1;
    ReleaseLast(after, i.holders, t);
    assert Wrap32(after.trainCount - 1) == i.trainCount;
    assert after.(holders := i.holders, trainCount := i.trainCount) == i;
  }

  /** Releasing a train that entered last, and only once, takes away exactly
      that entry. */
  lemma ReleaseLast(i: Intersection, front: seq<TrainId>, t: TrainId)
    requires i.holders == front + [t] && t !in front
    ensures Release(i, t) == Attempt(true, i.(holders := front, trainCount := Wrap32(i.trainCount - 1)))
  {
    assert IndexOf(i.holders, t) == |front| by {
      assert forall j :: 0 <= j < |front| ==> i.holders[j] == front[j];
      assert i.holders[|front|] == t;
    }
    EraseLast(front, t);
  }

  /** Erasing the last element leaves the elements before it. */
  lemma EraseLast(s: seq<TrainId>, t: TrainId)
    ensures EraseAt(s + [t], |s|) == s
  {
    var r := EraseAt(s + [t], |s|);
    assert r + [t] == s + [t];
    assert r == (r + [t])[..|s|];
  }

  // ---------------------------------------------------------------------------
  // Configuration lines
  // ---------------------------------------------------------------------------

  /** The characters `trim` drops: space, tab, line feed, carriage return. */
  predicate IsBlank(c: char) {
    c == ' ' || c == '\t' || c == '\n' || c == '\r'
  }

  /** `trim`: every blank character is dropped, wherever it occurs; the other
      characters are kept, in order. Built left to right, as the source's loop
      appends to its result. */
  function Trim(s: string): (r: string)
    ensures |r| <= |s|
    ensures forall k :: 0 <= k < |r| ==> !IsBlank(r[k])
    ensures r == s <==> forall k :: 0 <= k < |s| ==> !IsBlank(s[k])
  {
    if s == [] then []
    else
      var c := s[|s| - 1];
      var front := Trim(s[..|s| - 1]);
      assert s == s[..|s| - 1] + [c];
      if IsBlank(c) then front else front + [c]
  }

  /** Trimming distributes over concatenation. Together with its effect on one
      character (dropped iff blank), this determines `Trim` completely. */
  lemma {:induction false} TrimAppend(a: string, b: string)
    ensures Trim(a + b) == Trim(a) + Trim(b)
    decreases |b|
  {
    if b == [] {
      assert a + b == a;
    } else {
      var b', c := b[..|b| - 1], b[|b| - 1];
      assert a + b == (a + b') + [c];
      assert b == b' + [c];
      TrimSnoc(a + b', c);
      TrimSnoc(b', c);
      TrimAppend(a, b');
    }
  }

  /** One more character is dropped if blank and kept otherwise. */
  lemma TrimSnoc(s: string, c: char)
    ensures Trim(s + [c]) == Trim(s) + (if IsBlank(c) then [] else [c])
  {
    var t := s + [c];
    assert t[..|t| - 1] == s;
  }

  /** Trimming keeps every non-blank character as often as it occurs. */
  lemma {:induction false} TrimCounts(s: string)
    ensures forall c :: !IsBlank(c) ==> multiset(Trim(s))[c] == multiset(s)[c]
    decreases |s|
  {
    if s != [] {
      var front := s[..|s| - 1];
      assert s == front + [s[|s| - 1]];
      TrimCounts(front);
    }
  }

  /** Trimming twice is trimming once. */
  lemma TrimIdempotent(s: string)
    ensures Trim(Trim(s)) == Trim(s)
  {
  }

  /** Text cut at the first occurrence of a delimiter, as one
      `std::getline(stream, head, delim)` leaves it: the text before the
      delimiter, and what the stream still holds after it. */
  datatype Cut = Cut(head: string, rest: string)

  function CutAt(line: string, delim: char): (c: Cut)
    ensures delim !in c.head
    ensures delim in line ==> line == c.head + [delim] + c.rest
    ensures delim !in line ==> line == c.head && c.rest == []
  {
    var k := IndexOf(line, delim);
    if k < |line| then
      assert line == line[..k] + [delim] + line[k + 1..];
      Cut(line[..k], line[k + 1..])
    else
      Cut(line, [])
  }

  /** The fields that repeated `std::getline(stream, field, delim)` calls
      produce until one fails: the text split at every delimiter, where an
      empty final piece is not produced (the call that would read it finds the
      stream exhausted and fails). */
  function Split(s: string, delim: char): (fields: seq<string>)
    ensures forall k :: 0 <= k < |fields| ==> delim !in fields[k]
    ensures |fields| <= |s|
    ensures s != [] ==> |fields| > 0
    decreases |s|
  {
    if s == [] then []
    else
      var k := IndexOf(s, delim);
      if k == |s| then [s]
      else [s[..k]] + Split(s[k + 1..], delim)
  }

  /** The fields written back with the delimiter between them. */
  function Join(fields: seq<string>, delim: char): string
  {
    if fields == [] then []
    else if |fields| == 1 then fields[0]
    else fields[0] + [delim] + Join(fields[1..], delim)
  }

  /** Splitting loses nothing when the text does not end with a delimiter. */
  lemma {:induction false} JoinSplit(s: string, delim: char)
    requires s == [] || s[|s| - 1] != delim
    ensures Join(Split(s, delim), delim) == s
    decreases |s|
  {
    if s != [] {
      var k := IndexOf(s, delim);
      if k < |s| {
        var head, rest := s[..k], s[k + 1..];
        assert s == head + [delim] + rest;
        assert rest != [] && rest[|rest| - 1] != delim;
        var fields := Split(rest, delim);
        assert Split(s, delim) == [head] + fields;
        JoinSplit(rest, delim);
        JoinCons(head, fields, delim);
      }
    }
  }

  /** Joining a field in front of other fields puts a delimiter between. */
  lemma JoinCons(head: string, fields: seq<string>, delim: char)
    requires fields != []
    ensures Join([head] + fields, delim) == head + [delim] + Join(fields, delim)
  {
    assert ([head] + fields)[1..] == fields;
  }

  /** Splitting recovers the fields they were joined from, provided none holds
      the delimiter and the last one is not empty. */
  lemma {:induction false} SplitJoin(fields: seq<string>, delim: char)
    requires forall k :: 0 <= k < |fields| ==> delim !in fields[k]
    requires fields == [] || fields[|fields| - 1] != []
    ensures Split(Join(fields, delim), delim) == fields
    decreases |fields|
  {
    if |fields| == 1 {
      assert IndexOf(fields[0], delim) == |fields[0]|;
    } else if |fields| > 1 {
      var f := fields[0];
      var tail := Join(fields[1..], delim);
      var s := f + [delim] + tail;
      assert s[|f|] == delim;
      assert forall j :: 0 <= j < |f| ==> s[j] == f[j];
      var k := IndexOf(s, delim);
      assert k == |f|;
      assert s[..k] == f && s[k + 1..] == tail;
      SplitJoin(fields[1..], delim);
      assert fields == [f] + fields[1..];
    }
  }

  /** The name on a configuration line: the trimmed text before the first `:`. */
  function LineName(line: string): (name: string)
    ensures ':' !in name
    ensures forall k :: 0 <= k < |name| ==> !IsBlank(name[k])
  {
    var head := CutAt(line, ':').head;
    assert forall c :: c in Trim(head) ==> c in head by {
      TrimCounts(head);
      forall c | c in Trim(head)
        ensures c in head
      {
        assert multiset(Trim(head))[c] > 0;
      }
    }
    Trim(head)
  }

  /** A name written in front of the `:` is read back unchanged. */
  lemma LineNameRoundTrip(name: string, tail: string)
    requires ':' !in name
    requires forall k :: 0 <= k < |name| ==> !IsBlank(name[k])
    ensures LineName(name + [':'] + tail) == name
  {
    var line := name + [':'] + tail;
    var k := IndexOf(line, ':');
    assert line[|name|] == ':';
    assert forall j :: 0 <= j < |name| ==> line[j] == name[j];
    assert k == |name|;
    assert line[..k] == name;
  }

  /** One line of the intersections file, `name:capacity`. The capacity is
      taken as already extracted from the text after the `:`. */
  function ParseIntersectionLine(line: string, capacity: u32): (i: Intersection)
    ensures i.Valid() && i.holders == [] && i.waiting == []
    ensures i.capacity == capacity
    ensures i.name == LineName(line)
  {
    NewIntersection(LineName(line), capacity)
  }

  /** The trimmed route tokens that name a known intersection, in order; the
      others are reported and dropped. */
  function KnownRoute(tokens: seq<string>, known: set<string>): (route: seq<string>)
    ensures |route| <= |tokens|
    ensures forall x :: x in route ==> x in known
    ensures forall x :: x in route <==> x in known && exists k :: 0 <= k < |tokens| && Trim(tokens[k]) == x
  {
    if tokens == [] then []
    else
      var rest := KnownRoute(tokens[1..], known);
      assert forall k :: 0 < k < |tokens| ==> tokens[k] == tokens[1..][k - 1];
      var x := Trim(tokens[0]);
      if x in known then [x] + rest else rest
  }

  /** When every token names a known intersection, the route is the tokens
      trimmed, one for one. */
  lemma {:induction false} KnownRouteKeepsAll(tokens: seq<string>, known: set<string>)
    requires forall k :: 0 <= k < |tokens| ==> Trim(tokens[k]) in known
    ensures |KnownRoute(tokens, known)| == |tokens|
    ensures forall k :: 0 <= k < |tokens| ==> KnownRoute(tokens, known)[k] == Trim(tokens[k])
  {
    if tokens != [] {
      KnownRouteKeepsAll(tokens[1..], known);
    }
  }

  /** One line of the trains file, `name:I1,I2,...`, against the set of
      intersection names parsed before. The source leaves the location
      unset; the model starts it empty. */
  function ParseTrainLine(line: string, known: set<string>): (t: Train)
    ensures t.name == LineName(line)
    ensures forall x :: x in t.route ==> x in known
    ensures t.currentLocation == None
  {
    Train(LineName(line), KnownRoute(Split(CutAt(line, ':').rest, ','), known), None)
  }

  /** Reading the route distributes over the tokens: the names kept from a
      longer list are those kept from its front followed by those kept from
      its back, so order and repetitions are kept. */
  lemma {:induction false} KnownRouteAppend(a: seq<string>, b: seq<string>, known: set<string>)
    ensures KnownRoute(a + b, known) == KnownRoute(a, known) + KnownRoute(b, known)
  {
    if a == [] {
      assert a + b == b;
    } else {
      KnownRouteCons(a, known);
      KnownRouteConsAppend(a, b, known);
      KnownRouteAppend(a[1..], b, known);
      Regroup(KnownRoute(a + b, known), KnownRoute([a[0]], known), KnownRoute(a[1..], known),
              KnownRoute(a[1..] + b, known), KnownRoute(b, known));
    }
  }

  /** The route of a non-empty token list: what its first token contributes,
      then the route of the rest. */
  lemma KnownRouteCons(tokens: seq<string>, known: set<string>)
    requires tokens != []
    ensures KnownRoute(tokens, known) == KnownRoute([tokens[0]], known) + KnownRoute(tokens[1..], known)
  {
    assert [tokens[0]][1..] == [];
  }

  /** The same split for a list followed by more tokens. */
  lemma KnownRouteConsAppend(a: seq<string>, b: seq<string>, known: set<string>)
    requires a != []
    ensures KnownRoute(a + b, known) == KnownRoute([a[0]], known) + KnownRoute(a[1..] + b, known)
  {
    KnownRouteCons(a + b, known);
    assert (a + b)[1..] == a[1..] + b && (a + b)[0] == a[0];
  }

  /** A single token contributes its trimmed name when that names a known
      intersection, and nothing otherwise. */
  lemma KnownRouteSingle(token: string, known: set<string>)
    ensures KnownRoute([token], known) == if Trim(token) in known then [Trim(token)] else []
  {
  }

  /** A train line written from a name and a route of known names is read back
      as that train. */
  lemma TrainLineRoundTrip(name: string, route: seq<string>, known: set<string>)
    requires ':' !in name
    requires forall k :: 0 <= k < |name| ==> !IsBlank(name[k])
    requires forall k :: 0 <= k < |route| ==> route[k] in known && ',' !in route[k]
    requires forall k, j :: 0 <= k < |route| && 0 <= j < |route[k]| ==> !IsBlank(route[k][j])
    requires route == [] || route[|route| - 1] != []
    ensures ParseTrainLine(name + [':'] + Join(route, ','), known) == Train(name, route, None)
  {
    var line := name + [':'] + Join(route, ',');
    LineNameRoundTrip(name, Join(route, ','));
    var k := IndexOf(line, ':');
    assert line[|name|] == ':';
    assert forall j :: 0 <= j < |name| ==> line[j] == name[j];
    assert k == |name|;
    assert CutAt(line, ':').rest == Join(route, ',');
    SplitJoin(route, ',');
    assert forall j :: 0 <= j < |route| ==> Trim(route[j]) == route[j];
    KnownRouteKeepsAll(route, known);
  }

  /** The names the intersection lines are filed under, in order. */
  function IntersectionNames(lines: seq<(string, u32)>): (names: seq<string>)
    ensures |names| == |lines|
    ensures forall j :: 0 <= j < |lines| ==> names[j] == LineName(lines[j].0)
  {
    if lines == [] then []
    else IntersectionNames(lines[..|lines| - 1]) + [LineName(lines[|lines| - 1].0)]
  }

  /** `parseIntersections` over the lines of the file, each with its capacity:
      every line adds or replaces the intersection under its name. */
  function ParseIntersections(lines: seq<(string, u32)>): (m: map<string, Intersection>)
    ensures forall n :: n in m <==> n in IntersectionNames(lines)
    ensures forall n :: n in m ==> m[n].name == n && m[n].Valid() && m[n].holders == [] && m[n].waiting == []
    ensures lines != [] ==> m[LineName(lines[|lines| - 1].0)].capacity == lines[|lines| - 1].1
  {
    if lines == [] then map[]
    else
      var last := lines[|lines| - 1];
      var front := ParseIntersections(lines[..|lines| - 1]);
      var m := front[LineName(last.0) := ParseIntersectionLine(last.0, last.1)];
      assert forall n :: n in m ==> m[n].name == n && m[n].Valid() && m[n].holders == [] && m[n].waiting == [] by {
        forall n | n in m
          ensures m[n].name == n && m[n].Valid() && m[n].holders == [] && m[n].waiting == []
        {
          if n != LineName(last.0) {
            assert m[n] == front[n];
          }
        }
      }
      m
  }

  /** The names the train lines are filed under, in order. */
  function TrainNames(lines: seq<string>): (names: seq<string>)
    ensures |names| == |lines|
    ensures forall j :: 0 <= j < |lines| ==> names[j] == LineName(lines[j])
  {
    if lines == [] then []
    else TrainNames(lines[..|lines| - 1]) + [LineName(lines[|lines| - 1])]
  }

  /** `parseTrains` over the lines of the file: every line adds or replaces the
      train under its name, with a route of known intersections only. */
  function ParseTrains(lines: seq<string>, known: set<string>): (m: map<TrainId, Train>)
    ensures forall n :: n in m <==> n in TrainNames(lines)
    ensures forall n :: n in m ==> m[n].name == n && m[n].currentLocation == None
    ensures forall n, x :: n in m && x in m[n].route ==> x in known
  {
    if lines == [] then map[]
    else
      var last := lines[|lines| - 1];
      var front := ParseTrains(lines[..|lines| - 1], known);
      var m := front[LineName(last) := ParseTrainLine(last, known)];
      assert forall n :: n in m ==> m[n].name == n && m[n].currentLocation == None && forall x :: x in m[n].route ==> x in known by {
        forall n | n in m
          ensures m[n].name == n && m[n].currentLocation == None && forall x :: x in m[n].route ==> x in known
        {
          if n != LineName(last) {
            assert m[n] == front[n];
          }
        }
      }
      m
  }

  /** Every intersection name ends up with the intersection its last line
      describes: a line that no later line repeats the name of is the one
      the map holds under that name. */
  lemma {:induction false} ParseIntersectionsLastLine(lines: seq<(string, u32)>, j: int)
    requires 0 <= j < |lines|
    requires forall k :: j < k < |lines| ==> LineName(lines[k].0) != LineName(lines[j].0)
    ensures LineName(lines[j].0) in ParseIntersections(lines)
    ensures ParseIntersections(lines)[LineName(lines[j].0)] == ParseIntersectionLine(lines[j].0, lines[j].1)
  {
    var front := lines[..|lines| - 1];
    if j < |lines| - 1 {
      assert forall k :: j < k < |front| ==> front[k] == lines[k];
      ParseIntersectionsLastLine(front, j);
      assert front[j] == lines[j];
    }
  }

  /** Every train name ends up with the train its last line describes: a line
      that no later line repeats the name of is the one the map holds under
      that name, route included. */
  lemma {:induction false} ParseTrainsLastLine(lines: seq<string>, known: set<string>, j: int)
    requires 0 <= j < |lines|
    requires forall k :: j < k < |lines| ==> LineName(lines[k]) != LineName(lines[j])
    ensures LineName(lines[j]) in ParseTrains(lines, known)
    ensures ParseTrains(lines, known)[LineName(lines[j])] == ParseTrainLine(lines[j], known)
  {
    var front := lines[..|lines| - 1];
    if j < |lines| - 1 {
      assert forall k :: j < k < |front| ==> front[k] == lines[k];
      ParseTrainsLastLine(front, known, j);
      assert front[j] == lines[j];
    }
  }
}
