/** One pass of the coordinator's request loop: a received message is answered
    by rewriting its command field, after the resource table has been asked to
    grant or release the named intersection. Receiving and sending the message
    are left to the caller. */
module Server {
  import opened Parsing
  import opened ResourceAllocation

  /** A request or response message: the command, the train it concerns, and
      the intersection it names. */
  datatype Message = Message(command: string, trainName: TrainId, intersection: string)

  /** The table after a message has been handled, and the response to send. */
  datatype Reply = Reply(table: Table, response: Message)

  /** The answer sent back for a message. */
  function Response(msg: Message, command: string): (r: Message)
    ensures r.command == command
    ensures r.trainName == msg.trainName && r.intersection == msg.intersection
  {
    msg.(command := command)
  }

  /** One iteration of the loop: ACQUIRE is answered GRANT or WAIT, RELEASE is
      answered RELEASED or DENY, according to what the table did; any other
      command goes back unchanged and leaves the table alone. */
  function Dispatch(tab: Table, msg: Message): (r: Reply)
    ensures r.response.trainName == msg.trainName && r.response.intersection == msg.intersection
    ensures msg.command == "ACQUIRE" ==>
      var a := ResourceAllocation.Acquire(tab, msg.intersection, msg.trainName);
      && r.table == a.state
      && (r.response.command == "GRANT" <==> a.ok)
      && (r.response.command == "WAIT" <==> !a.ok)
    ensures msg.command == "RELEASE" ==>
      var a := ResourceAllocation.Release(tab, msg.intersection, msg.trainName);
      && r.table == a.state
      && (r.response.command == "RELEASED" <==> a.ok)
      && (r.response.command == "DENY" <==> !a.ok)
    ensures msg.command != "ACQUIRE" && msg.command != "RELEASE" ==> r == Reply(tab, msg)
    ensures AllValid(tab) ==> AllValid(r.table)
    ensures WellKeyed(tab) ==> WellKeyed(r.table)
    ensures r.table.Keys == tab.Keys
  {
    if msg.command == "ACQUIRE" then
      var a := ResourceAllocation.Acquire(tab, msg.intersection, msg.trainName);
      Reply(a.state, Response(msg, if a.ok then "GRANT" else "WAIT"))
    else if msg.command == "RELEASE" then
      var a := ResourceAllocation.Release(tab, msg.intersection, msg.trainName);
      Reply(a.state, Response(msg, if a.ok then "RELEASED" else "DENY"))
    else
      Reply(tab, msg)
  }

  /** The responses to a sequence of messages, handled in order of arrival. */
  datatype Trace = Trace(table: Table, responses: seq<Message>)

  /** The loop over messages received in this order: one response per message,
      naming the same train and intersection, and a table that keeps its
      invariants throughout. */
  function Run(tab: Table, msgs: seq<Message>): (r: Trace)
    ensures |r.responses| == |msgs|
    ensures forall k :: 0 <= k < |msgs| ==>
      r.responses[k].trainName == msgs[k].trainName && r.responses[k].intersection == msgs[k].intersection
    ensures AllValid(tab) ==> AllValid(r.table)
    ensures WellKeyed(tab) ==> WellKeyed(r.table)
    ensures r.table.Keys == tab.Keys
    decreases |msgs|
  {
    if msgs == [] then
      Trace(tab, [])
    else
      var first := Dispatch(tab, msgs[0]);
      var rest := Run(first.table, msgs[1..]);
      Trace(rest.table, [first.response] + rest.responses)
  }

  /** Messages are handled one at a time in the order they arrive: the run over
      one more message is the run over the earlier ones, followed by the
      answer to the new message given against the table they left. */
  lemma {:induction false} RunInOrder(tab: Table, msgs: seq<Message>, m: Message)
    ensures var before := Run(tab, msgs);
      var last := Dispatch(before.table, m);
      Run(tab, msgs + [m]) == Trace(last.table, before.responses + [last.response])
  {
    if msgs == [] {
      assert msgs + [m] == [m];
      assert [m][1..] == [];
    } else {
      var first := Dispatch(tab, msgs[0]);
      assert (msgs + [m])[0] == msgs[0] && (msgs + [m])[1..] == msgs[1..] + [m];
      RunInOrder(first.table, msgs[1..], m);
      var rest := Run(first.table, msgs[1..]);
      var last := Dispatch(rest.table, m);
      assert [first.response] + (rest.responses + [last.response])
          == ([first.response] + rest.responses) + [last.response];
    }
  }

  /** Capacity and mutual exclusion hold after any sequence of requests: no
      intersection ever has more holders than its capacity, and a mutex
      intersection at most one. */
  lemma {:induction false} CapacityInvariant(tab: Table, msgs: seq<Message>)
    requires AllValid(tab)
    ensures forall n :: n in Run(tab, msgs).table ==> |Run(tab, msgs).table[n].holders| <= Run(tab, msgs).table[n].capacity
    ensures forall n :: n in Run(tab, msgs).table && Run(tab, msgs).table[n].IsMutex() ==> |Run(tab, msgs).table[n].holders| <= 1
  {
    var r := Run(tab, msgs).table;
    assert AllValid(r);
  }

  /** A release by a train that does not hold the intersection is denied and
      leaves the table exactly as it was. */
  lemma ReleaseByNonHolderDenied(tab: Table, train: TrainId, name: string)
    requires name !in tab || train !in tab[name].holders
    ensures Dispatch(tab, Message("RELEASE", train, name)) == Reply(tab, Message("DENY", train, name))
  {
  }

  /** Two trains enter a capacity-2 intersection and a third is told to wait. */
  lemma SemaphoreAdmitsCapacity()
    ensures var tab := map["I" := NewIntersection("I", 2)];
      var msgs := [Message("ACQUIRE", "A", "I"), Message("ACQUIRE", "B", "I"), Message("ACQUIRE", "C", "I")];
      var r := Run(tab, msgs);
      && [r.responses[0].command, r.responses[1].command, r.responses[2].command] == ["GRANT", "GRANT", "WAIT"]
      && r.table["I"].holders == ["A", "B"]
  {
    var tab := map["I" := NewIntersection("I", 2)];
    var d1 := Dispatch(tab, Message("ACQUIRE", "A", "I"));
    assert d1.table["I"].holders == ["A"];
    var d2 := Dispatch(d1.table, Message("ACQUIRE", "B", "I"));
    assert d2.table["I"].holders == ["A", "B"];
    var d3 := Dispatch(d2.table, Message("ACQUIRE", "C", "I"));
    assert d3.response.command == "WAIT";
    var msgs := [Message("ACQUIRE", "A", "I"), Message("ACQUIRE", "B", "I"), Message("ACQUIRE", "C", "I")];
    assert msgs[1..] == [Message("ACQUIRE", "B", "I"), Message("ACQUIRE", "C", "I")];
    assert msgs[1..][1..] == [Message("ACQUIRE", "C", "I")];
    assert msgs[1..][1..][1..] == [];
  }
}
