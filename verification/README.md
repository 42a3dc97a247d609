# Train and intersection coordinator — a Dafny model

This project models the resource-coordination core of a multi-process train
simulator. Trains travel along routes of intersections. A central server
grants each intersection to at most `capacity` trains at a time:

- An intersection of capacity 1 behaves like a mutex.
- A larger one behaves like a counting semaphore.

The server answers ACQUIRE and RELEASE requests. It builds a wait-for graph
between trains, detects deadlock with a depth-first search, and recovers by
preempting a victim's intersection.

The model is functional: intersections, trains and tables are immutable
datatypes, and every operation is a pure function. The modules are:

- `Base`: `Option`, `Attempt` (a boolean result together with the new state), 32-bit unsigned counters, and `IndexOf`.
- `Parsing` (parsing.cpp): `Intersection` and `Train`, `acquire`/`release`/`isOpen`, `trim`, and per-line configuration parsing.
- `ResourceAllocation` (resource_allocation.cpp): the table of intersections by name, the holder snapshot, the waiting graph, and the graph vocabulary (edges, walks, cycles).
- `Server` (server.cpp): one step of the request loop, and the loop over a sequence of messages.
- `DeadlockDetection` (server.cpp): `detectDeadlock`/`isCyclicUtil`, both as written and corrected.
- `DeadlockRecovery` (deadlock_recovery.cpp): preemption of the first train of a cycle.
- `Logging` (logging.cpp): the hours/minutes/seconds split of simulated time, and the layout of log lines.

Modelling choices:

- **Trains are identified by name.** The source works with `Train*` pointers, but every table in it is keyed by the train's name.
- **`train_count` is `unsigned int`.** It is modelled as `u32`. The decrement in `release` wraps modulo 2^32, as C++ does.
- **Intersections carry a waiting list.** `buildWaitingGraph` reads `waiting_trains`, a list that `Intersection` never declares. The model adds a `waiting` sequence and treats it as given state. The server loop never fills it, so `Dispatch` leaves it alone.
- **Unknown intersection names are refused.** For the table's `acquire` and `release` the model follows the count-guarded variant (ipc.cpp:57-67): a name that is not in the table changes nothing. That variant returns `void`, so it reports nothing. Reporting failure for an unknown name, and hence the WAIT or DENY that `Dispatch` sends back, is this model's choice. The version in resource_allocation.cpp would insert a null entry and dereference it.
- **Hash-map iteration order is a parameter.** The order of `unordered_map` iteration is unspecified, so it is an explicit `order` argument that lists the keys. Every property is proved for all such orders.
- **The DFS stack is a path.** `isCyclicUtil` keeps its recursion stack as a sequence, so a cycle that is found can be returned.
- **Recovery takes the cycle as a parameter.** This follows the declaration in deadlock_recovery.hpp:19-22. The victim's held intersection is its `current_location` (parsing.hpp:44).

## Model

| member | source | states |
|---|---|---|
| Base.Wrap32 | parsing.cpp:57 | Unsigned 32-bit arithmetic: a value already in range is kept, and a value down to 2^32 below zero wraps up by 2^32. |
| Parsing.NewIntersection | parsing.cpp:16 | A new intersection is empty, consistent, and open exactly when its capacity is positive. |
| Parsing.Intersection.IsOpen | parsing.cpp:72-74 | For a consistent intersection: open iff it has fewer holders than its capacity. A mutex is open iff it has no holder. |
| Parsing.Acquire | parsing.cpp:28-49 | Succeeds iff the intersection is open. For a consistent one that means fewer holders than capacity (none for a mutex). On success the train is appended and the count goes up by one; on failure nothing changes. Consistency `train_count == |holders| <= capacity` is preserved. |
| Parsing.Release | parsing.cpp:52-70 | Succeeds iff the train is a holder. On success exactly its first occurrence is removed, the other holders keep their order and the count goes down by one; otherwise nothing changes. Consistency is preserved. |
| Parsing.AcquireReleaseRoundTrip | parsing.cpp:28-70 | A granted acquire of a train not yet holding, followed by its release, gives back the original intersection. |
| Parsing.Trim | parsing.cpp:81-89 | The result holds no space, tab, newline or carriage return, and it equals the input exactly when the input holds none. |
| Parsing.TrimAppend | parsing.cpp:81-89 | Trimming distributes over concatenation, so the characters kept stay in their order. |
| Parsing.TrimCounts | parsing.cpp:81-89 | Every character other than the four blanks occurs in the result exactly as often as in the input. |
| Parsing.TrimIdempotent | parsing.cpp:81-89 | Trimming twice is trimming once. |
| Parsing.CutAt | parsing.cpp:104 | `getline(ss, head, delim)`: the head holds no delimiter, and head, delimiter and rest put back together give the line. |
| Parsing.Split | parsing.cpp:134 | The fields of the `getline(ss, field, ',')` loop: none holds the delimiter, there are no more fields than characters, and a non-empty text gives at least one field. The text is recovered exactly by `JoinSplit`. |
| Parsing.JoinSplit | parsing.cpp:134 | Repeated `getline(ss, field, ',')` loses nothing: joining the fields gives back any text that does not end in a delimiter. |
| Parsing.SplitJoin | parsing.cpp:134 | Splitting recovers the fields joined, provided none holds the delimiter and the last is non-empty. |
| Parsing.LineName | parsing.cpp:104-107 | The name read from a line holds no `:` and no blank. |
| Parsing.LineNameRoundTrip | parsing.cpp:104-107 | A blank-free name written before the `:` reads back unchanged. |
| Parsing.ParseIntersectionLine | parsing.cpp:100-112 | An intersection line yields an empty, consistent intersection with the given capacity. Its name is the name read from the line, which holds no `:` or blank. |
| Parsing.KnownRoute | parsing.cpp:134-143 | A name is in the route iff it is known and is some token trimmed. The route is no longer than the token list. Order and repetitions follow from `KnownRouteAppend` and `KnownRouteSingle`. |
| Parsing.KnownRouteAppend | parsing.cpp:134-143 | The tokens are read one after another: the route of a longer token list is the route of its front followed by the route of its back. The kept names therefore keep their order and their repetitions. |
| Parsing.KnownRouteSingle | parsing.cpp:135-142 | One token adds its trimmed name when that names a known intersection, and adds nothing (only the error report) otherwise. |
| Parsing.KnownRouteKeepsAll | parsing.cpp:134-143 | When every token names a known intersection, the route is the trimmed tokens, one for one and in order. |
| Parsing.ParseTrainLine | parsing.cpp:125-153 | A train line yields a train at no location, named by the name read from the line, whose route holds only known intersections. |
| Parsing.TrainLineRoundTrip | parsing.cpp:125-153 | A line `name:I1,I2,...` written from known, blank-free names reads back as that train and route. |
| Parsing.ParseIntersections | parsing.cpp:99-115 | The map has a key for exactly the names read from the lines. Every entry is filed under its own name and is empty and consistent. |
| Parsing.ParseIntersectionsLastLine | parsing.cpp:104-112 | A later line with the same name overwrites: under every name the map holds exactly the intersection described by the last line with that name, capacity included. |
| Parsing.ParseTrains | parsing.cpp:124-156 | The map has a key for exactly the names read from the lines. Every train is filed under its own name, is at no location, and has a route naming only known intersections. |
| Parsing.ParseTrainsLastLine | parsing.cpp:125-153 | A later line with the same name overwrites: under every name the map holds exactly the train read from the last line with that name, route included. |
| ResourceAllocation.AddIntersection | resource_allocation.cpp:16-20 | The intersection is filed under its name, replacing any earlier one; the other entries are unchanged. |
| ResourceAllocation.Acquire | resource_allocation.cpp:24-27 | The result is exactly the named intersection's own acquire. An unknown name is refused. No other intersection changes. |
| ResourceAllocation.Release | resource_allocation.cpp:30-33 | The result is exactly the named intersection's own release. An unknown name is refused. No other intersection changes. |
| ResourceAllocation.Snapshot | resource_allocation.cpp:68-81 | The keys are exactly the intersection names, and each value is that intersection's holders in order. For a consistent table its length is `train_count`, which is at most the capacity. |
| ResourceAllocation.SnapshotAfterAcquire | resource_allocation.cpp:24-27 | A granted acquire shows in the snapshot as the train appended to that one list; a refused one does not show. |
| ResourceAllocation.SnapshotAfterRelease | resource_allocation.cpp:30-33 | A granted release removes one occurrence of the train from that one list; a refused one does not show. |
| ResourceAllocation.AddEdges | resource_allocation.cpp:58 | Pushing holders onto a waiter's list adds exactly those edges. The key appears only when something is pushed. |
| ResourceAllocation.AddWaiters | resource_allocation.cpp:56-60 | One intersection contributes exactly the edges from each of its waiters to each of its holders. |
| ResourceAllocation.BuildFrom | resource_allocation.cpp:55-61 | The intersections visited contribute exactly the waiter-to-holder edges of each. |
| ResourceAllocation.BuildWaitingGraph | resource_allocation.cpp:52-64 | There is an edge A→B iff some intersection has A waiting and B holding. A train is a key iff it waits on an intersection with at least one holder. |
| ResourceAllocation.WaitingGraphCount | resource_allocation.cpp:55-61 | B appears among A's successors once for every pair of an occurrence of A among an intersection's waiters and an occurrence of B among its holders. |
| Server.Dispatch | server.cpp:45-78 | ACQUIRE is answered GRANT iff the table grants it, and WAIT otherwise. RELEASE is answered RELEASED iff the release succeeds, and DENY otherwise. Any other command comes back unchanged with the table untouched. The response names the same train and intersection. |
| Server.Run | server.cpp:40-79 | Exactly one response per message received, in order, each naming the message's train and intersection. Consistency and the set of names are kept throughout. |
| Server.RunInOrder | server.cpp:40-79 | Messages are handled one at a time in arrival order. Running one more message appends exactly that message's answer, given against the table the earlier messages left, and the table becomes the one that answer leaves. |
| Server.CapacityInvariant | server.cpp:40-79 | After any message sequence, no intersection has more holders than its capacity, and a mutex intersection has at most one. |
| Server.ReleaseByNonHolderDenied | server.cpp:63-74 | A release by a train not holding the intersection is answered DENY and changes nothing. |
| Server.SemaphoreAdmitsCapacity | server.cpp:49-61 | At a capacity-2 intersection, two trains are granted and a third is told to wait. |
| DeadlockDetection.Visit | server.cpp:128-146 | A cycle it reports is a real cycle. A completed search leaves the node visited and the stack as it found it. The trains it finished have no edge out of the finished set and no cycle inside it. |
| DeadlockDetection.VisitSuccessors | server.cpp:133-141 | A successor found on the recursion stack closes a genuine cycle. A completed loop keeps the finished set closed and cycle-free. |
| DeadlockDetection.DetectFrom | server.cpp:117-123 | A reported cycle is real. A completed loop has visited every key, and the visited set is closed and cycle-free. |
| DeadlockDetection.FindCycle | server.cpp:106-146 | Any cycle returned is a cycle of the graph, and none is returned exactly when the graph has no cycle. |
| DeadlockDetection.DetectDeadlock | server.cpp:106-125 | True iff the waiting graph has a directed cycle; false on the empty graph. |
| DeadlockDetection.DetectDeadlockAsWritten | server.cpp:106-146 | With `graph.at` as written: when it answers, the answer is right. It can throw only when some train in the graph has no successor list. |
| DeadlockDetection.AsWrittenThrowsOnHolder | server.cpp:133 | Counterexample: on the graph T1→T2, the search as written throws, while the corrected one reports no deadlock. |
| DeadlockRecovery.RemoveAll | deadlock_recovery.cpp:29 | The victim no longer occurs. Every other train occurs as often as before, and the length drops by the victim's count. A list without the victim is unchanged. |
| DeadlockRecovery.RemoveAllAppend | deadlock_recovery.cpp:29 | Removal works piece by piece, so the holders that stay keep their order. |
| DeadlockRecovery.RemoveAllSingle | deadlock_recovery.cpp:29 | A single holder is dropped iff it is the victim. |
| DeadlockRecovery.ForceRelease | deadlock_recovery.cpp:29 | The holders become the old holder list without the victim, in order. Every other holder keeps its count, the name, capacity and waiters are unchanged, and consistency is kept. |
| DeadlockRecovery.Recover | deadlock_recovery.cpp:18-34 | An empty cycle changes nothing. Otherwise the first train is the victim: it leaves the intersection it occupies and its location is cleared. That intersection's holders become the old list without the victim, in order, and its name, capacity and waiters are kept. That one entry of the resource table is replaced by the new holder list. No other train or intersection changes. |
| DeadlockRecovery.DeadlockCycleAsWritten | deadlock_recovery.cpp:13-16 | The cycle stub returns an empty cycle for every resource table. |
| DeadlockRecovery.DeadlockRecoveryAsWritten | deadlock_recovery.cpp:18-34 | Because the stub's cycle is empty, recovery as written changes nothing: trains, intersections and the resource table come back as they were. |
| DeadlockRecovery.RecoveryKeepsTableValid | deadlock_recovery.cpp:29-33 | Recovery keeps every intersection consistent and filed under its own name. |
| DeadlockRecovery.RecoveryKeepsSnapshot | deadlock_recovery.cpp:33 | A resource table that was the holder snapshot before recovery is the holder snapshot after it. |
| DeadlockRecovery.RecoveryBreaksCycle | deadlock_recovery.cpp:25-33 | If the victim held only the intersection it occupies, the given cycle is no longer a cycle of the rebuilt waiting graph. |
| Logging.TDiv | logging.cpp:131-132 | C++ `/`: the remainder it leaves has the dividend's sign and is smaller than the divisor. |
| Logging.TMod | logging.cpp:132-133 | C++ `%`: dividend equals divisor times quotient plus remainder; the remainder has the dividend's sign and is smaller than the divisor. |
| Logging.TDivUnique | logging.cpp:131-133 | Truncated division is the only quotient-remainder pair with a remainder of the dividend's sign. |
| Logging.TimeParts | logging.cpp:128-135 | Hours, minutes and seconds add back up to `sim_time`. Minutes and seconds are below sixty in magnitude, non-negative for non-negative times and non-positive for negative ones. |
| Logging.TimePartsUnique | logging.cpp:131-133 | The split is the only such reading of a time. |
| Logging.LogLine | logging.cpp:28-31 | A log line starts with `[`, ends with a newline, and is six characters longer than its parts. |
| Logging.ParseLogLine | logging.cpp:30 | A reader the program does not have; it exists to state the round trip of the layout `log` writes. A line it reads is exactly the log line of the entry read, with a timestamp free of `]` and a source free of `:`. |
| Logging.ReadTimestamp | logging.cpp:30 | Stage of the same reader, not of the program: after the `[`, the timestamp runs to the first `]`, which is followed by a space. The rest is the source, `: `, the message and a newline. |
| Logging.ReadSource | logging.cpp:30 | Stage of the same reader: after the timestamp, the source runs to the first `:`, which is followed by a space. The rest is the message and a newline. |
| Logging.ReadMessage | logging.cpp:30 | Stage of the same reader: the message is what precedes the final newline. |
| Logging.LogLineRoundTrip | logging.cpp:30 | A line written with such a timestamp and source reads back as what was written, whatever the message holds. |
| Logging.GrantLine | logging.cpp:46-55 | A grant line is a log line from `SERVER` carrying the grant message. |
| Logging.GrantLineParses | logging.cpp:48-54 | A grant line reads back from `SERVER`. Its message is the bare announcement exactly when there is no additional detail. |

## Findings

| source | as written | input that shows it | evidently intended | confidence | as-written member | corrected member |
|---|---|---|---|---|---|---|
| server.cpp:133 | `graph.at(node)` reads the successor list of every node the search reaches, including holders that wait on nothing and so are not keys of the waiting graph; `at` throws `std::out_of_range` for them | waiting graph `{T1: [T2]}` (T1 waits on an intersection T2 holds, T2 waits on nothing) | a node without a successor list has no successors, and the search reports no deadlock | not executed; high that `at` throws on a missing key | DeadlockDetection.DetectDeadlockAsWritten, DeadlockDetection.AsWrittenThrowsOnHolder | DeadlockDetection.DetectDeadlock |

## Left out

- Concurrency: the pthread mutex and POSIX semaphore calls inside `Intersection` (parsing.cpp:17-24, 31, 40, 60, 63) and the `std::mutex`/condition variable in `handleRequest` (server.cpp:93-103). They are replaced by the holder list and counter.
- IPC transport: System V message queues and shared memory (ipc.cpp, ipc.hpp). `Dispatch` and `Run` take the received messages as parameters and return the responses.
- Process spawning and travel simulation (train.cpp, train_forking.cpp), and the test programs (testing.cpp, testserver.cpp).
- File reading in `parseIntersections`/`parseTrains`. The parsers take the lines as a sequence.
- The `ss >> capacity` extraction (parsing.cpp:105). The capacity arrives already parsed as a `u32`.
- Debug output: `printGraph` and the `cout` lines in parsing and detection.
- The `trains[trainName]` lookup in the server loop (server.cpp:47), which would insert a null train for an unknown name. Trains are identified by name, so nothing is looked up.
- ResourceAllocation.Acquire: does not model the `operator[]` insertion and null dereference on an unknown name (resource_allocation.cpp:26, 32). The count-guarded variant is used instead.
- Dispatch does not add a refused train to the intersection's waiting list. The source never does this, so the waiting lists are state the caller supplies.
- `current_location` is never initialised or updated in the source. The parsers set it to `None`, and recovery reads it as given.
- The code after the endless server loop (server.cpp:81-90): detection and recovery are modelled as separate functions.
- DeadlockRecovery.Recover: the log calls its step comments mention (deadlock_recovery.cpp:23, 27, 31) are not modelled; recovery changes state only.
- Logging: the clock (`system_clock::now()`) and file writes are left out. The rendering of hours, minutes and seconds into timestamp text (logging.cpp:134) is left out because that line does not say what text it produces. Timestamps are taken as given strings.
- Logging: the other fixed line shapes (`logTrainRequest`, `logLock`, `logIntersectionFull`, `logDeadlockDetected`, `logRelease`, `logPreemption`, `logGrantAfterPreemption`, `logProceeding`, `logSimulationComplete`) are left out. They are constant text around the names and add nothing beyond `LogLine` and `GrantLine`.
- Logging.TimeParts: `sim_time` is an unbounded integer. C++ `int` overflow cannot arise in this split.
