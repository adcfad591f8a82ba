# madkv, verified

A Dafny model of the parts of madkv where a mistake would be hard to see: the fuzzer's
streaming consistency checker and the loop that feeds it, the ordering-graph consistency
checker and object-pool protocol of the P model, the text protocol between runner and
client, and the node indexing of the deployment scripts.

`dafny verify dfyconfig.toml` checks the whole project.

## The fuzzer

The fuzzer issues calls through concurrent clients and harvests answers, one event per
timestamp. Its checker keeps, per key and client, a deque of acknowledged updates, trims
the old end of a deque when an update is acknowledged, and checks an answer as soon as
every client has acknowledged an update that ended after it.

- `HistorySpec` says what one call into the checker computes; `HistoryChecker.History` is
  the class with the queue, the deques and the marks, and its methods are proved to
  compute exactly that. The four per-key checks of the source differ only in what they
  compare, so `CheckKey` takes that as an argument.
- `FuzzMachine` is the loop as a transition system over arbitrary answers and arbitrary
  scheduling. Its states also carry the complete log of answers and all verdicts given.
  `FuzzTest.FuzzTest` is the loop itself and produces one of these runs.
- `FuzzInvariant`, `FuzzSafety` and `FuzzTheorems` prove that trimming and early checking
  never change a verdict, over all runs and all later points of a run, and that the queue
  is exactly what is still undecided.
- `Acceptance` says in terms of the log alone which answers are accepted. `Linearization`
  proves that answers with a linearization over an initially empty map are never faulted.
  The converse is not claimed: the checker is approximate by design, and
  `FuzzTheorems.OwnWriteNeverRejected` shows answers it can never reject.
- `OneClient` is the exception: for a single client, verdicts are told exactly from the
  map that the calls build up.
- `AnswerValues` spells out what the other modules state through shared definitions: which
  values an answer may tell, for any number of clients and, kind by kind, for one.
- `ScanBounds` records a disagreement inside the repository. Its user guide (lines 411-415
  of its `README.md`) shows a scan that includes the upper key, and the checker demands
  it; the reference client leaves it out. The two agree exactly when the upper key is not
  stored, and a lone reference client is faulted exactly for scans where it is.

## The ordering-graph checker and the object pool

- `Traversal` is the explicit-stack coloured depth-first search, one step per iteration,
  with the order in which a set is listed as an input. `Consistency.ConvergenceConformity`
  is the loop itself, with sets walked in arbitrary order.
- The source's loop does nothing when the node on top of the stack is already finished,
  so it then repeats forever. The model returns `LoopsForever` there instead. `Trap` and
  `Divergence` prove exactly when that can happen, for every graph: some edge order makes
  the loop run forever if and only if the graph has a trap, which is a walk from the head
  on which no edge dangles or leads back, ending at a node with two out-edges, to `x` and
  `y`, such that `x` can be reached from `y` and nothing reachable from `y` is missing or
  on a cycle. In graphs without reachable dangling edges and cycles that is just an edge
  bypassed by a longer walk.
- `PoolCheck` is the check of pool transitions after the traversal. Applying an operation
  to a pool without its key fails an assertion in the source; the model returns
  `KeyMissing`. Whether that comes first depends on the order in which sets are walked, and
  some order makes it happen if and only if an edge lacks the key.
- `Relationship` and `Linearizable` prove the one-pass level downgrade exact in any
  visiting order, and the linearizability assertion equivalent to being one chain of valid
  pool transitions in real-time order. The source's assertions compare levels for
  equality, so the assertions of weaker models fail on graphs that satisfy a stronger one;
  `Sequential` states this for sequential consistency, and `Assertions` for the other four.
- `ObjectPool` is the asynchronous system of service and clients, with messages taken in
  any order and fresh clock readings. `Monitor` is the specification monitor, and
  `Simulation` runs service, clients and monitor together under any schedule.
- The service answers with `val = 0`, and the monitor replays those answers, so its pool
  need not be the service's pool. `MonitorPool` says what it is and when the two agree.
  Linearizability of the service is stated on the requests.

## The text protocol and node indexing

- `Text` and `Wire` are words, lines, printing and reading. At the end of its input the
  source's reader keeps reading forever; the model reports `Hangs`, and the reference
  client's loop reports `Blocks`. `EndOfInput` says for which texts that happens.
- `WireText` states the texts themselves, and `Replies` what the reference client answers
  in terms of its answers alone.
- `WireTheorems.RoundTripExact` gives the exact condition for a response to survive, and
  `RefClient.TransparentPipe` composes writing, parsing, handling, printing and reading.
- `NodeIndex` is the server-list arithmetic.

## Model

| member | source | states |
|---|---|---|
| `KvTypes.LessExact` | runner/src/bin/fuzzer/history.rs:280-297 | Keys are ordered by their first difference: one comes before another if it is a proper prefix or has the smaller character where they first differ. |
| `KvTypes.LeavesExact` | runner/src/ioapi.rs:40-47 | Puts and swaps leave their value at their key, deletes leave nothing there, and no other call touches a key. |
| `HistoryChecker.CheckKey` | runner/src/bin/fuzzer/history.rs:199-268 | The reverse search with early exit finds a match if and only if some span of some client began before the operation ended, has the wanted value or presence, and is followed by no span of that client that ended before the operation began. |
| `HistoryChecker.CollectEntries` | runner/src/bin/fuzzer/history.rs:280-289 | Collecting scan entries succeeds exactly if all are in the inclusive range and no key repeats, and then the dictionary looks up every key as the list does. |
| `HistoryChecker.CheckScan` | runner/src/bin/fuzzer/history.rs:272-304 | A scan is accepted exactly if its entries are in range and duplicate-free and every pool key in range is accepted with the listed value or absence. |
| `HistoryChecker.CheckCall` | runner/src/bin/fuzzer/history.rs:152-196 | Each kind of answer is accepted exactly by its own criterion; an unknown key or a stop answer is rejected. |
| `HistoryChecker.Trim` | runner/src/bin/fuzzer/history.rs:120-132 | The search for the newest ended span and the popping of the front compute the trimming function that the trimming lemmas are about. |
| `HistoryChecker.TrimAll` | runner/src/bin/fuzzer/history.rs:119-133 | Every client's deque of the updated key is trimmed, and nothing else. |
| `HistoryChecker.LeastCall` | runner/src/bin/fuzzer/history.rs:111-116 | The least call time in the queue, the largest u64 when it is empty. |
| `HistoryChecker.DrainShape` | runner/src/bin/fuzzer/history.rs:136-143 | A pass pops a prefix of decidable answers with their exact verdicts, stops at the first rejected one, and otherwise only at an undecidable one. |
| `HistoryChecker.History.constructor` | runner/src/bin/fuzzer/history.rs:39-64 | The history starts with one dummy erasure per client for exactly the keys of the pool. |
| `HistoryChecker.History.PopDecidable` | runner/src/bin/fuzzer/history.rs:136-143 | The draining loop leaves the rest of the queue and reports the first rejected answer, if any. |
| `HistoryChecker.History.ApplyUpdate` | runner/src/bin/fuzzer/history.rs:89-149 | Whole new state and report of acknowledging an update; an unknown key is reported and changes nothing. |
| `FuzzInvariant.TrimSafeAndTight` | runner/src/bin/fuzzer/history.rs:118-133 | A trimmed sequential deque is a non-empty newest part; if anything was dropped its oldest span ended before both bounds, and no other kept span did. |
| `FuzzInvariant.TrimmedSameVerdict` | runner/src/bin/fuzzer/history.rs:118-133 | For every queued answer the trimmed deques and the complete history give the same verdict. |
| `FuzzInvariant.StableVerdict` | runner/src/bin/fuzzer/history.rs:135-143 | An operation called after an answer ended does not change the verdict on that answer. |
| `FuzzSafety.HistRead` | runner/src/bin/fuzzer/main.rs:128-131 | Queueing the answer of a read keeps all relations between checker state, complete log and verdicts. |
| `FuzzSafety.HistUpdate` | runner/src/bin/fuzzer/history.rs:104-143 | Acknowledging an update keeps all these relations: trimmed deques safe, queue the unchecked tail, verdicts equal to offline verdicts. |
| `FuzzSafety.KeyExpected` | runner/src/bin/fuzzer/main.rs:148-157 | The "unexpected update key" outcome is unreachable: the key of an update in flight is a key of the history. |
| `FuzzSafety.RunInv` | runner/src/bin/fuzzer/main.rs:94-177 | The whole invariant holds in every state of every run, with arbitrary answers and scheduling. |
| `FuzzTheorems.OnlineEqualsOffline` | runner/src/bin/fuzzer/history.rs:104-143 | Each verdict given from trimmed deques equals the check on the complete history, both as known then and as known at any later point of the run. |
| `FuzzTheorems.ViolationIsOffline` | runner/src/bin/fuzzer/history.rs:135-143 | A violation is reported if and only if the offline check rejects one of the answers decided so far. |
| `FuzzTheorems.PendingExact` | runner/src/bin/fuzzer/history.rs:66-81 | Without a violation the queue is, in strictly increasing response order, exactly the answers that ended no earlier than some client's latest update, and its length is their number. |
| `FuzzTheorems.TrimNeverMissed` | runner/src/bin/fuzzer/history.rs:118-133 | In any run each deque is a non-empty suffix of the full history, and if something was dropped the oldest kept span ended before the call of every answer still queued or yet to come. |
| `FuzzTheorems.TrimIsTight` | runner/src/bin/fuzzer/history.rs:118-133 | After an update of a key, at most the oldest span of each client's deque of that key ended before both bounds. |
| `FuzzSchedule.CountersExact` | runner/src/bin/fuzzer/main.rs:94-177 | Timestamp is calls plus harvests, their difference is the number of clients in flight, and a run that is not cut short ends after exactly twice the number of operations. |
| `FuzzSchedule.SchedulerNeverStarves` | runner/src/bin/fuzzer/random.rs:26-47 | Whichever way the choice falls, a client of the wanted kind exists. |
| `FuzzSchedule.EveryChoice` | runner/src/bin/fuzzer/main.rs:94-131 | Until a run is over, any idle client may make any call it can draw while calls are left, and any client in flight may be answered anything. |
| `FuzzSchedule.GeneratedExact` | runner/src/bin/fuzzer/random.rs:50-111 | The calls that can be drawn are exactly puts, swaps, gets and deletes of the client's keys and scans between two of them in order. |
| `FuzzSchedule.ContractsMet` | runner/src/bin/fuzzer/history.rs:67-102 | The timestamp and index assertions of queueing and acknowledging hold at every harvest of every run. |
| `FuzzTest.GenCallVsWait` | runner/src/bin/fuzzer/random.rs:26-34 | The decision is always one the loop can carry out: to call only with calls left and an idle client, to wait only with a client in flight or all calls made. |
| `FuzzTest.GenRandKvCall` | runner/src/bin/fuzzer/random.rs:50-111 | Calls use the client's own keys, and scan bounds come in order. |
| `FuzzTest.Absorb` | runner/src/bin/fuzzer/main.rs:128-160 | Queueing and acknowledging one answer is the transition system's harvest, and it fails exactly on a violation. |
| `FuzzTest.FuzzTest` | runner/src/bin/fuzzer/main.rs:69-190 | The loop is a run of the transition system; after exactly twice the number of operations it returns how many answers are undecided by the log, or nothing if it was cut short by a violation or a stop. |
| `Acceptance.ClientExact` | runner/src/bin/fuzzer/history.rs:257-267 | A client's complete history accepts an observation exactly if an update in the log, or the initial absence, supports it. |
| `Acceptance.ExactAcceptance` | runner/src/bin/fuzzer/history.rs:152-328 | The offline check accepts an answer of any kind if and only if the log supports it. |
| `AnswerValues.SpansExact` | runner/src/bin/fuzzer/history.rs:104-108 | A client's history of a key holds the dummy erasure and one span for each put, swap and delete of that key, with its times and the value it left, and nothing else. |
| `AnswerValues.VerdictsClaim` | runner/src/bin/fuzzer/history.rs:152-328 | With any number of clients, a checked answer is accepted if and only if each value or absence it claims was left by an update called before the answer ended and not followed by one of the same client that ended before it began, or is the initial absence at a client that had not touched the key. |
| `AnswerValues.InventedValueRejected` | runner/src/bin/fuzzer/history.rs:226-268 | A get, swap or scan that tells a value no put or swap of that key wrote is rejected when checked. |
| `FuzzTheorems.OwnWriteNeverRejected` | runner/src/bin/fuzzer/history.rs:209-218 | In any run a put answered "found" and a delete answered "not found" is never rejected, because the update's own record supports it. |
| `Linearization.HeldIsSupported` | runner/src/bin/fuzzer/history.rs:247-268 | What the map held when a decided operation took effect is supported by the log. |
| `Linearization.NoFalseAlarm` | runner/src/bin/fuzzer/history.rs:152-328 | If the answers of a run have a linearization respecting real time over an initially empty map with inclusive scans, every verdict is positive and no violation is reported. |
| `ScanBounds.UpperKeyMatters` | refcli/src/main.rs:108-118 | For ordered bounds the half-open scan answers the inclusive scan if and only if the upper key is not stored. |
| `OneClient.VerdictsExact` | runner/src/bin/fuzzer/history.rs:152-328 | With one client and arbitrary answers, a checked answer is accepted if and only if it tells what the earlier calls left in the map or, for the key of an update, what that update wrote. |
| `AnswerValues.StoreExact` | runner/src/ioapi.rs:40-47 | The map that the calls build up holds at each key what the last put, swap or delete of it left. |
| `AnswerValues.LoneVerdicts` | runner/src/bin/fuzzer/history.rs:152-328 | For one client, kind by kind: a get passes if and only if it tells what the map holds, a put if it says found or tells the truth, a delete if it says not found or tells the truth, a swap if it tells the new value or the truth, and a scan if it lists exactly what the map holds. |
| `ScanBounds.HalfOpenVerdicts` | refcli/src/main.rs:108-118 | A lone client that answers from its own map with half-open scans gets a negative verdict exactly for scans whose upper key was stored, and a violation is reported if and only if such a scan was checked. |
| `ScanBounds.HalfOpenScanFaulted` | refcli/src/main.rs:108-118 | With one key and at least three operations there is such a run that is reported: a put, a scan of just that key, and another put. |
| `Traversal.TopOfTrail` | pmodel/PSpec/Consistency.p:96-104 | The internal assertion never fires: when a node in progress is on top, all its out-edges lead to finished nodes. |
| `Traversal.FinishReach` | pmodel/PSpec/Consistency.p:98-104 | Collecting from finished successors gives exactly the nodes reachable by a non-empty walk, and the node is on no cycle. |
| `Traversal.RunInv` | pmodel/PSpec/Consistency.p:61-111 | The traversal invariant holds after any number of iterations under any edge orders. |
| `Traversal.FatalIsBad` | pmodel/PSpec/Consistency.p:74-93 | Returning early means that a dangling edge or a cycle is reachable from the head. |
| `Traversal.EmptyIsExact` | pmodel/PSpec/Consistency.p:113-117 | With an empty stack no reachable edge dangles, no cycle is reachable, the count falls short exactly if a node is unreachable, and the reachable sets are exact. |
| `Termination.StepShrinks` | pmodel/PSpec/Consistency.p:61-111 | Every iteration that is not stuck uses up one of two colour changes per node. |
| `Termination.WedgedForever` | pmodel/PSpec/Consistency.p:95-110 | A finished node on top is a fixpoint of the loop body. |
| `Termination.PushedTwice` | pmodel/PSpec/Consistency.p:83-85 | Pushing a node that already waits on the stack needs a bypassed edge. |
| `Termination.StaysDoomed` | pmodel/PSpec/Consistency.p:95-110 | Once a node is on the stack twice, or finished and on the stack, the stack can never empty. |
| `Termination.DoomedNeverReturns` | pmodel/PSpec/Consistency.p:61-111 | In a graph without reachable dangling edges and cycles, a run never returns after such a state. |
| `Trap.WedgedIsTrap` | pmodel/PSpec/Consistency.p:61-111 | A traversal that is stuck has found a trap. |
| `Divergence.TrapWedges` | pmodel/PSpec/Consistency.p:61-111 | For every trap some edge orders drive the loop into the stuck state. |
| `Trap.NoTrapTerminates` | pmodel/PSpec/Consistency.p:61-111 | Without a trap no run gets stuck and none is longer than two iterations per node. |
| `Divergence.TerminationExact` | pmodel/PSpec/Consistency.p:61-111 | For every graph, some edge order makes the loop run forever if and only if the graph has a trap. |
| `Divergence.CleanTraps` | pmodel/PSpec/Consistency.p:61-111 | Where no dangling edge and no cycle is reachable, a trap exists if and only if a reachable edge is bypassed by a longer walk. |
| `Consistency.VisitTop` | pmodel/PSpec/Consistency.p:64-93 | The first visit, with out-edges in arbitrary order, is a step of the traversal or reports a bad edge, and it reports one exactly if there is one. |
| `Consistency.FinishTop` | pmodel/PSpec/Consistency.p:96-108 | The second visit is the finishing step, in any order. |
| `PoolCheck.ParentExplains` | pmodel/PSpec/Consistency.p:126-133 | The first parent in visiting order that lacks the key or whose pool leads to the node's pool decides; otherwise all parents have the key and none explains the pool. |
| `PoolCheck.PoolsValid` | pmodel/PSpec/Consistency.p:119-139 | Walking nodes and parents in some order finds every node with parents explained by one of them, or some node that is not, or a missing key; a node without parents is the head. |
| `PoolCheck.TransitionExact` | pmodel/PSpec/RefObjPool.p:70-87 | A pool follows from a parent's if and only if only the operation's key may differ: a read keeps it, a write sets it, and a read-add-write adds to it. |
| `PoolCheck.MissingKeyExact` | pmodel/PSpec/Consistency.p:119-139 | In some order the check meets a pool without the key if and only if the key is missing on some edge. |
| `Consistency.ConvergenceConformity` | pmodel/PSpec/Consistency.p:38-142 | Whenever it returns, the level is exact (invalid iff dangling, cyclic or disconnected; then unexplained pool, branching, single order) and reachability is exact; it fails to return only with a trap, and a key can be missing only in a well-formed graph with such an edge. |
| `Assertions.ConvergenceExact` | pmodel/PSpec/Consistency.p:38-142 | Each convergence level in terms of walks and edges: well-formedness, a node none of whose parents leads to its pool, and a node with two different edges out. |
| `Relationship.LowerByPair` | pmodel/PSpec/Consistency.p:156-187 | The three guarded tests in a row lower the level as specified. |
| `Relationship.LowerIsExact` | pmodel/PSpec/Consistency.p:160-187 | Testing one more pair only at the current level still gives the strongest level no seen pair violates. |
| `Relationship.RelationshipConformity` | pmodel/PSpec/Consistency.p:146-192 | The result is the strongest level that no pair of nodes violates, whatever the visiting order. |
| `Relationship.LevelsExact` | pmodel/PSpec/Consistency.p:146-192 | On every graph with exact reachability: real time iff every node answered before another was requested leads to it, at least session order iff so within each client, and at least FIFO iff so within each client except from a read to a write. |
| `Linearizable.LinearizableExact` | pmodel/PSpec/Consistency.p:212-220 | Single order and real time hold together exactly if the graph is one chain from the head of valid transitions in which real-time order is kept. |
| `Linearizable.SatisfiedConstraints` | pmodel/PSpec/Consistency.p:195-210 | Both exact levels, or invalid and none for a malformed graph; the two ways not to return as above. |
| `Linearizable.AssertLinearizability` | pmodel/PSpec/Consistency.p:213-220 | For every graph with a head the assertion passes if and only if the graph is linearizable; it can hang only with a trap. |
| `Sequential.LinearizableIsSequential` | pmodel/PSpec/Consistency.p:212-230 | Every linearizable graph is sequentially consistent, and so fails the sequential-consistency assertion below. |
| `Sequential.SequentialExact` | pmodel/PSpec/Consistency.p:223-230 | Single order with exactly session order holds if and only if one chain of valid transitions keeps session order and none keeps real-time order. |
| `Sequential.AssertSequentialConsistency` | pmodel/PSpec/Consistency.p:223-230 | The assertion passes if and only if the graph is sequentially consistent and not linearizable. |
| `Assertions.AssertCausalConsistency` | pmodel/PSpec/Consistency.p:233-240 | When it answers, it passes if and only if the graph is well formed and explained, forks, and keeps session order but not real time. |
| `Assertions.AssertPRAMConsistency` | pmodel/PSpec/Consistency.p:243-250 | When it answers, it passes if and only if the graph is well formed with an unexplained pool and keeps FIFO order but not session order. |
| `Assertions.AssertEventualConsistency` | pmodel/PSpec/Consistency.p:253-260 | When it answers, it passes if and only if the graph is well formed and explained, forks, and does not keep FIFO order. |
| `Assertions.AssertWeakConsistency` | pmodel/PSpec/Consistency.p:263-270 | When it answers, it passes if and only if the graph is well formed with an unexplained pool and does not keep FIFO order. |
| `ObjectPool.Service.OnRequest` | pmodel/PSrc/ObjPool.p:38-62 | One request changes the pool as its operation demands and is answered with the value before it, with `val` zero. |
| `ObjectPool.RunInv` | pmodel/PSrc/Client.p:41-61 | In every interleaving the processing order is a sequential execution, messages match it, and each client has at most one message under way. |
| `ObjectPool.AssertionsNeverFire` | pmodel/PSrc/Client.p:50-61 | The assertions in service and clients hold in every run. |
| `ObjectPool.ServiceLinearizable` | pmodel/PSrc/ObjPool.p:37-63 | Processing order is a legal sequential execution of the requests giving exactly the returned values, each seen at most once, and it respects response-before-request precedence. |
| `MonitorPool.ReturnsExact` | pmodel/PSrc/ObjPool.p:46-58 | In every run a read or read-add-write is answered the value last written before it, or the initial one, plus what was added since, and a write is answered 0; each client sees just that. |
| `ObjectPool.RequestsConserved` | pmodel/PSrc/Client.p:41-61 | What a client has seen and what it has left always add up to its number of requests. |
| `ObjectPool.EveryChoice` | pmodel/PSrc/Client.p:41-61 | Any client that is not waiting and has requests left may send any operation on its keys, any message may be served, and any answer may arrive. |
| `ObjectPool.NeverStuck` | pmodel/PSrc/Client.p:41-61 | While some client has requests left, some step is possible. |
| `Monitor.HistoryExact` | pmodel/PSpec/RefObjPool.p:39-46 | The history of announced responses is linearizable if and only if none came before an earlier one was requested, or before time 0. |
| `Monitor.Spec.constructor` | pmodel/PSpec/RefObjPool.p:21-36 | The history starts with a dummy node that carries the initial pool. |
| `Monitor.Spec.AppendResponse` | pmodel/PSpec/RefObjPool.p:49-66 | Appending keeps the history the chain of all responses in announcement order, with replayed pools, whatever their times. |
| `Monitor.Spec.OnClientSeesResponse` | pmodel/PSpec/RefObjPool.p:39-46 | After each response the assertion passes if all are on time and fails otherwise; it never hangs and never misses a key. |
| `Monitor.AnnouncedOnTime` | pmodel/PSrc/Client.p:50-61 | In every run each prefix of the announcements has keys of the pool, comes in clock order and is on time. |
| `Simulation.Simulate` | pmodel/PTest/TestRefObjPool.p:9-51 | Driving service, clients and monitor through any schedule follows the run of the system, and every assertion of the monitor passes. |
| `MonitorPool.MonitorPoolExact` | pmodel/PSpec/RefObjPool.p:49-66 | In every run the monitor's pool holds 0 for the keys written by an announced response and the initial value for all others. |
| `MonitorPool.AgreementExact` | pmodel/PSrc/ObjPool.p:55-61 | When all served requests have been seen, the monitor's pool is the service's if and only if, for every key, the value last written (0 if none) plus what was added since is 0. |
| `MonitorPool.OneWriteDisagrees` | pmodel/PSrc/ObjPool.p:55-61 | A run of a single write after which the pools agree only if it wrote 0. |
| `WireText.CallText` | runner/src/ioapi.rs:23-34 | The text of each call, literally. |
| `WireText.AnswerText` | refcli/src/main.rs:130-182 | The text of each answer other than a scan's, literally. |
| `WireText.ScanText` | refcli/src/main.rs:130-182 | The text of a scan's answer: a first line, an indented line per entry, and a closing line. |
| `WireText.PutRead` | runner/src/ioapi.rs:116-133 | A put's answer is read as found or not found by its third word, and any other third word is an invalid field. |
| `WireText.DeleteRead` | runner/src/ioapi.rs:186-203 | The same for a delete's answer. |
| `WireText.ValueRead` | runner/src/ioapi.rs:135-157 | The third word of a swap's or get's answer is the value, or absence if it is `null`. |
| `WireText.Separators` | runner/src/ioapi.rs:95-97 | Spaces, tabs and line ends separate words. |
| `WireText.SpaceExact` | runner/src/ioapi.rs:95-97 | The separating characters are exactly the 25 white space characters of Unicode. |
| `Wire.RoundTrip` | runner/src/ioapi.rs:79-207 | A safe response printed with blank lines before any of its lines is read back exactly, and only its own lines are consumed. |
| `WireTheorems.RoundTripExact` | refcli/src/main.rs:130-182 | A response survives printing and reading if and only if its keys and values are words, no present value is `null`, and no scan entry is `SCAN END`. |
| `WireTheorems.StreamRoundTrip` | runner/src/ioapi.rs:108-207 | Reading a stream of safe responses with arbitrary blank lines gives back the same list and leaves what follows. |
| `WireTheorems.CallRoundTrip` | runner/src/ioapi.rs:23-34 | A call written by the runner is parsed by the client as the same call. |
| `WireTheorems.ParseExact` | refcli/src/main.rs:53-86 | A line is parsed as a call if and only if it begins with the words of that call. |
| `ResponseReader.Reader.ReadNextLine` | runner/src/ioapi.rs:79-92 | Skips blank lines, or never returns at the end of the input. |
| `EndOfInput.NextLineEnds` | runner/src/ioapi.rs:79-92 | Reading the next line runs on forever if and only if nothing but white space is left. |
| `EndOfInput.DecodeHangs` | runner/src/ioapi.rs:108-207 | Reading a response runs on forever if and only if the text is blank, or its first line opens a scan and all others are entries. |
| `EndOfInput.CutOffHangs` | runner/src/ioapi.rs:165-177 | Every safe response cut off before its last line is such a text. |
| `EndOfInput.DecodeFails` | runner/src/ioapi.rs:108-207 | Reading fails with an invalid field if and only if the third word of a put's or delete's answer is neither expected one, and with an invalid line if and only if a word is missing, the first is unknown, or a one-word line follows the entries of a scan. |
| `EndOfInput.DecodeExact` | runner/src/ioapi.rs:108-207 | A response other than a scan is read if and only if the first line that is not blank begins with its words. |
| `ResponseReader.Reader.ReadScanEntries` | runner/src/ioapi.rs:165-177 | Collects entries up to the closing line, with the same errors as the specification. |
| `ResponseReader.Reader.FromRead` | runner/src/ioapi.rs:108-207 | Decodes one response, or gives the same error, and leaves the reader just after it. |
| `RefClient.Range` | refcli/src/main.rs:109-112 | Lists exactly the stored pairs of the half-open range in key order. |
| `RefClient.ScanUnique` | refcli/src/main.rs:109-112 | There is exactly one such listing. |
| `RefClient.Client.HandleKvCall` | refcli/src/main.rs:90-127 | New map and answer of every call. |
| `Replies.WriteThenRead` | refcli/src/main.rs:90-127 | A get right after a put or swap answers the new value, after a delete nothing, and after any call that does not touch its key the same as before. |
| `Replies.RepliesAgree` | refcli/src/main.rs:90-127 | Puts, swaps and deletes answer according to what a get would have answered. |
| `Replies.ScanReply` | refcli/src/main.rs:108-118 | A scan lists in order exactly the pairs from the lower bound up to but not including the upper one that gets would answer. |
| `Replies.GetExact` | refcli/src/main.rs:90-127 | After any calls on an empty map, a get answers what the last put, swap or delete of its key left. |
| `RefClient.WriteResponse` | refcli/src/main.rs:130-182 | Appends exactly the printed form. |
| `RefClient.RunClient` | refcli/src/main.rs:184-213 | The loop's whole output and how it ends, for every input. |
| `EndOfInput.ServeBlocks` | refcli/src/main.rs:192-213 | The client blocks if and only if every line that is not blank holds a call it can handle other than a stop. |
| `EndOfInput.NoStopBlocks` | refcli/src/main.rs:192-213 | Safe calls not followed by a stop are such an input. |
| `EndOfInput.ServeEnds` | refcli/src/main.rs:192-213 | The first line that is not blank and not a call to go on after decides the end: a stop, a panic for a backward scan, or an error. |
| `Replies.BackwardScanPanics` | refcli/src/main.rs:108-118 | A scan is answered unless its upper bound comes before its lower one, and then the client panics. |
| `RefClient.SafeStep` | refcli/src/main.rs:90-127 | Safe calls keep the store safe and get safe answers. |
| `RefClient.TransparentPipe` | refcli/src/main.rs:184-213 | For any safe calls and a stop, what the runner decodes from the client's output is what applying the calls directly to an empty map answers. |
| `NodeIndex.SplitJoin` | justmod/xtract.py:80-92 | Splitting undoes joining when no part contains the separator. |
| `NodeIndex.JoinSplit` | justmod/xtract.py:80-92 | Joining undoes splitting, and no part contains the separator. |
| `NodeIndex.NameRoundTrip` | justmod/xtract.py:6-38 | Partition and replica number are recovered from a node's full name. |
| `NodeIndex.ShortNames` | justmod/xtract.py:6-38 | A name without a dot is replica 0, one without the leading `s` partition 0, and `s` with a number that partition. |
| `NodeIndex.TwoDigits` | justmod/xtract.py:83-84 | Numbers are read and written in decimal, tens first. |
| `NodeIndex.PositionInjective` | justmod/xtract.py:60-60 | Different nodes have different list positions. |
| `NodeIndex.PositionSurjective` | justmod/xtract.py:60-60 | Every position of a full list belongs to a node. |
| `NodeIndex.PeersExact` | justmod/xtract.py:71-96 | In a full list, splitting a node's peers gives the addresses of the other replicas of its partition in order; `none` is answered if and only if it is alone or its only peer is called `none`. |
| `NodeIndex.BlockExact` | justmod/xtract.py:86-86 | A node's block is the next `rf` addresses, or as many as are left. |
| `NodeIndex.NoneExact` | justmod/xtract.py:71-96 | For any list, `none` is answered if and only if the node has a place in its block and the rest of the block is empty, one empty address or one address called `none`; nothing is answered if and only if it has no place. |
| `NodeIndex.LonePeerNamedNone` | justmod/xtract.py:92-96 | A node whose only peer is called `none` and a node alone get the same answer. |
| `NodeIndex.PeersSymmetric` | justmod/xtract.py:71-96 | Each of two replicas of a partition lists the other. |

## Left out

- Timestamps are unbounded naturals; running out of 64-bit timestamps is not modelled.
- Random distributions: every random choice is arbitrary, and the retry loop that draws a client is a choice among the clients of the wanted kind.
- Errors of sending and waiting, process spawning, threads, channels and timeouts (`runner/src/proc.rs`, `runner/src/bin/service/main.rs`).
- Progress printing and statistics counters of the fuzzer, which no decision of the loop depends on.
- Completeness of the fuzzer's checker for concurrent clients, which is approximate by design; which answers it accepts is stated by `Acceptance.ExactAcceptance`.
- The client machine of the P model appears as the sending and delivering steps of the system on values, with its identifier equal to its index, not as a class; its random choice of values is arbitrary.
- `portof` and the command line of `justmod/xtract.py`; numerals are plain decimal digits.
- Texts of error messages. Strings are sequences of Unicode characters, whose order is that of their UTF-8 bytes.
- The YCSB bencher, the summary generators and the build recipes.
