# Chained request processors and Fibonacci slot hashing, in Dafny

This project models two pieces of the `tideseng/multithreading` demonstrations.

**The chained request pipeline** (`com.tideseng.multithreading.application`). Three stages are linked in a chain:
Pre → Print → Save. Each stage has:

- a FIFO inbox of `Request`s,
- an optional successor,
- a one-way `isFinished` flag.

`process` appends a request to a stage's inbox. Each iteration of a stage's worker loop first tests the
flag at the loop head. If the flag is clear, the worker waits in `take`, which never looks at the flag
again. Then it prints the request it took and passes the same request to the successor. `shutdown` sets the flag and then
recurses down the chain. `App` builds the chain starting from the tail, exposes Pre as the entry point,
and in `main` shuts the chain down before it submits one request.

- `request.dfy` (module `Requests`): the immutable `Request` value, its `toString` rendering, and a parser
  that recovers the name from that rendering.
- `stage.dfy` (module `Processor`): class `Stage`, the single model of `PrintProcessor`, `SaveProcessor` and
  `PreProcessor`. The code of the first two is identical apart from the text they print. `App` builds
  `PreProcessor` the same way as the others.
  - The successor `next` is a `const`, because the code never reassigns it after construction.
  - A ghost footprint `Repr` makes the chain acyclic and makes the recursive `Shutdown` terminate.
  - The worker's place in its loop is the field `phase`: `AtCheck` (at the loop head), `InTake` (past the
    flag test, waiting in `take`) or `Exited` (out of the loop).
  - `CheckFlag` is the loop-head test. It moves the worker to `Exited` when the flag is set, and to
    `InTake` when it is clear.
  - `Step` is the rest of one iteration. It may run only in `InTake` with a non-empty inbox, whatever the
    flag says by then. So a worker already waiting in `take` when `shutdown` runs still takes, prints and
    forwards one more request, if one arrives. `shutdown` only sets the flags: it neither drains an inbox
    nor wakes a waiting worker, so with no request arriving that worker waits forever.
  - What the worker prints is recorded in the field `log`.
- `chain.dfy` (module `ChainModel`): the whole chain taken as a value, one `StageView` per stage, head first.
  - `Submit`, `CheckFlag`, `Step` and `Shutdown` are functions on that value.
  - `Ordered` is the chain-order invariant. The head's log followed by its inbox equals everything
    submitted so far. Each later stage's log followed by its inbox equals its predecessor's log.
  - Traces of `Event`s stand for arbitrary interleavings of callers and workers.
  - Lemmas prove that traces preserve the invariant and that a set flag stays set.
  - After shutdown, each worker takes at most one more request, and only if it was already in `take`.
    A worker at its loop head or out of its loop takes nothing more.
  - Without shutdown, some schedule of worker steps brings every submitted request to every stage,
    in submission order.
- `app.dfy` (module `Application`): class `App` holds the three wired stages. Its methods are tied to the
  `ChainModel` functions and preserve `Ordered`. `ShutdownThenProcess` is the sequence that `main` runs.
  - The static initializer starts the workers, so when `main` runs each one may already be waiting in
    `take`. The parameter `blocked` says which ones are.
  - The lemmas about `main`'s outcome show two things. First, the request ends up logged by a prefix of
    Pre, Print, Save, and only by workers that were already in `take`. Second, every such prefix happens
    under some schedule.

**Fibonacci hashing** (`ThreadLocalDemo.maginHash`). For a table of size `size`, iteration `i` prints
`(i * 0x61c88647 + 0x61c88647) & (size - 1)`, computed in Java `int` arithmetic.

- `hash.dfy` (module `FibonacciHash`) models the computation:
  - the 32-bit wrap-around is `Int32`;
  - the `&` on two's-complement ints is `JavaAnd`, built on a bit-by-bit `BitAnd`;
  - the loop is a method that returns the printed indices in order.
- For every positive size, each index lies in `[0, size)`.
- When `size` is a power of two:
  - each index is the hash code modulo `size`, which is `(i + 1) * 0x61c88647 mod size`;
  - the indices are pairwise distinct and cover every slot, so they form a permutation of `0 .. size-1`.
    The proof uses the inverse `0xebb34377` of the odd multiplier modulo 2^32.

## Model

| member | source | states |
|---|---|---|
| Requests.NewRequest | src/main/java/com/tideseng/multithreading/application/Request.java:10-12 | the request keeps exactly the given name, and that name can be read back from its rendering |
| Requests.ToString | src/main/java/com/tideseng/multithreading/application/Request.java:15-19 | the rendering's length is the prefix's, the name's and the suffix's; its content is given by ToStringShape |
| Requests.ToStringShape | src/main/java/com/tideseng/multithreading/application/Request.java:15-19 | the rendering is exactly `Request{name='` + name + `'}`: its prefix, its suffix, and the name between them |
| Requests.ParseName | src/main/java/com/tideseng/multithreading/application/Request.java:16-18 | when it accepts a text, that text is the prefix, the returned name and the suffix, in that order |
| Requests.ParseToString | src/main/java/com/tideseng/multithreading/application/Request.java:16-18 | round trip: removing the prefix and the suffix from the rendering gives back the name |
| Requests.ToStringInjective | src/main/java/com/tideseng/multithreading/application/Request.java:15-19 | two requests render the same exactly when their names are equal |
| Processor.Stage.constructor | src/main/java/com/tideseng/multithreading/application/SaveProcessor.java:17-18 | a new stage has no successor, an empty inbox, an empty log and a clear flag; its chain is itself |
| Processor.Stage.WithNext | src/main/java/com/tideseng/multithreading/application/PrintProcessor.java:20-22 | a new stage has the given successor, an empty inbox and a clear flag; its chain is itself plus the successor's, with no cycle |
| Processor.Stage.Submit | src/main/java/com/tideseng/multithreading/application/PrintProcessor.java:41-43 | the request is appended to the inbox whatever the flag; log and flag are unchanged; no other object is modified |
| Processor.Stage.CheckFlag | src/main/java/com/tideseng/multithreading/application/PrintProcessor.java:29 | at the loop head the worker leaves the loop when the flag is set and goes into take when it is clear; inbox, log and flag unchanged |
| Processor.Stage.Step | src/main/java/com/tideseng/multithreading/application/PrintProcessor.java:31-33 | enabled once the worker is past the flag test and a request is waiting, whatever the flag; removes exactly the head of the inbox and appends it to the log; appends the same request to the successor's inbox even when the successor is finished; the worker is back at its loop head; changes nothing else |
| Processor.Stage.Shutdown | src/main/java/com/tideseng/multithreading/application/PrintProcessor.java:49-52 | afterwards every stage of the chain from here on is finished; no inbox or log changes; with no successor only its own flag is set |
| ChainModel.Submit | src/main/java/com/tideseng/multithreading/application/SaveProcessor.java:41-43 | on the chain value: appends to the head's inbox; every other part of every stage is unchanged |
| ChainModel.CheckFlag | src/main/java/com/tideseng/multithreading/application/SaveProcessor.java:29 | on the chain value: stage k's worker ends up out of the loop exactly when its flag is set, and in take exactly when it is clear; nothing else changes |
| ChainModel.Step | src/main/java/com/tideseng/multithreading/application/SaveProcessor.java:31-33 | on the chain value: a worker in take moves its inbox head to its log, and the successor, if any, gets that request at the tail of its inbox; the worker returns to its loop head; flags unchanged; all other stages unchanged |
| ChainModel.Shutdown | src/main/java/com/tideseng/multithreading/application/SaveProcessor.java:49-52 | on the chain value: every stage from k to the end is finished; stages before k unchanged; no inbox or log changes |
| ChainModel.SetFlag | src/main/java/com/tideseng/multithreading/application/PrintProcessor.java:50 | the flag write of one stage: that stage is finished, with inbox, log and phase unchanged; every other stage unchanged |
| ChainModel.SubmitPreservesOrder | src/main/java/com/tideseng/multithreading/application/PrintProcessor.java:41-43 | submitting r to the head keeps the chain order, with r appended to the submitted sequence |
| ChainModel.StepPreservesOrder | src/main/java/com/tideseng/multithreading/application/PrintProcessor.java:31-33 | a take by the worker of any stage keeps the chain order |
| ChainModel.ShutdownPreservesOrder | src/main/java/com/tideseng/multithreading/application/PrintProcessor.java:49-52 | shutdown keeps the chain order |
| ChainModel.CheckPreservesOrder | src/main/java/com/tideseng/multithreading/application/PrintProcessor.java:29 | a flag test at any stage keeps the chain order |
| ChainModel.ShutdownEndsLoops | src/main/java/com/tideseng/multithreading/application/PrintProcessor.java:29 | after shutdown at k, a worker at or after k that reaches its loop head leaves the loop and can then neither test the flag again nor take |
| ChainModel.StepsCommute | src/main/java/com/tideseng/multithreading/application/PrintProcessor.java:31-33 | takes by neighbouring workers, both possible, stay possible in either order and give the same chain |
| ChainModel.SubmitStepCommute | src/main/java/com/tideseng/multithreading/application/PrintProcessor.java:31-43 | a submission at the head and a possible take by any worker give the same chain in either order |
| ChainModel.SetFlagStepCommute | src/main/java/com/tideseng/multithreading/application/PrintProcessor.java:29-50 | setting one stage's flag and a possible take by any worker give the same chain in either order |
| ChainModel.SetFlagCheckCommute | src/main/java/com/tideseng/multithreading/application/PrintProcessor.java:29-50 | setting stage i's flag and the flag test of any other stage give the same chain in either order |
| ChainModel.LogsArePrefixes | src/main/java/com/tideseng/multithreading/application/PrintProcessor.java:29-33 | under the chain order, each stage's log is a prefix of every earlier stage's log and of the submitted sequence; so requests are seen in submission order, without gaps along the chain |
| ChainModel.QuiescentLogsEqualSubmitted | src/main/java/com/tideseng/multithreading/application/PrintProcessor.java:31-33 | under the chain order, when all inboxes are empty every stage has logged exactly the submitted sequence |
| ChainModel.ApplyPreservesOrder | src/main/java/com/tideseng/multithreading/application/PrintProcessor.java:29-52 | any single event keeps the chain order, with the request it submits, if any, appended to the submitted sequence |
| ChainModel.RunPreservesOrder | src/main/java/com/tideseng/multithreading/application/PrintProcessor.java:29-52 | any interleaving of submissions, flag tests, takes and shutdowns keeps the chain order, with the submitted requests appended in trace order |
| ChainModel.RunKeepsFinished | src/main/java/com/tideseng/multithreading/application/PrintProcessor.java:50 | a set flag stays set through any interleaving |
| ChainModel.ApplyAfterShutdown | src/main/java/com/tideseng/multithreading/application/PrintProcessor.java:29-33 | when every stage is finished, one event keeps all flags set, only extends logs, and never increases a stage's log length plus its pending take |
| ChainModel.RunAfterShutdownAt | src/main/java/com/tideseng/multithreading/application/PrintProcessor.java:29-33 | when every stage is finished, through any interleaving stage j's log only grows, and its length plus its pending take never increases |
| ChainModel.RunAfterShutdown | src/main/java/com/tideseng/multithreading/application/PrintProcessor.java:29-33 | after shutdown, through any interleaving, each stage's log grows by at most one request, only if its worker was already in take, and not at all otherwise; flags stay set |
| ChainModel.OneRequestAfterShutdown | src/main/java/com/tideseng/multithreading/application/PrintProcessor.java:29-33 | after a shutdown before anything was logged, with one request r submitted, each stage logs nothing or just r; a stage logs it only if its worker was in take, and only after every earlier stage has |
| ChainModel.DrainFrom | src/main/java/com/tideseng/multithreading/application/PrintProcessor.java:28-38 | with no stage finished and no worker out of its loop, there is a schedule made only of flag tests and takes after which every inbox is empty |
| ChainModel.EventuallyAllLogged | src/main/java/com/tideseng/multithreading/application/PrintProcessor.java:28-38 | with no stage finished and no worker out of its loop, there is a schedule with no submissions after which every stage has logged every submitted request, in submission order |
| Application.App.constructor | src/main/java/com/tideseng/multithreading/application/App.java:7-17 | builds Save without successor, then Print in front of it, then Pre in front of that; all inboxes and logs empty and flags clear; Pre is the entry point; chain order holds |
| Application.App.Process | src/main/java/com/tideseng/multithreading/application/App.java:24 | submitting at the entry point is the chain-value submit of the request, with no check of the flags; chain order is kept |
| Application.App.Shutdown | src/main/java/com/tideseng/multithreading/application/App.java:22 | shutdown at the entry point sets the flag on all three stages and changes no inbox or log; chain order is kept |
| Application.App.Check | src/main/java/com/tideseng/multithreading/application/App.java:12-14 | the flag test of the chosen stage's worker is the chain-value flag test; chain order is kept |
| Application.App.Work | src/main/java/com/tideseng/multithreading/application/App.java:12-14 | the take, print and forward of the chosen stage's worker, once past its flag test, is the chain-value step; chain order is kept |
| Application.ShutdownThenProcess | src/main/java/com/tideseng/multithreading/application/App.java:19-26 | after main the chain is `AfterMain(blocked, request)`: all three stages finished, the request in Pre's inbox and nowhere else, nothing logged, each worker in take exactly when it already was before main |
| Application.AfterMain | src/main/java/com/tideseng/multithreading/application/App.java:19-26 | the chain main leaves holds the chain order for the one submitted request, has every flag set, and has one pending take exactly at the workers that were in take |
| Application.StartWorkers | src/main/java/com/tideseng/multithreading/application/App.java:12-14 | the workers chosen to be waiting in take before main have each passed their first flag test; the others are still at their loop head |
| Application.MainOutcome | src/main/java/com/tideseng/multithreading/application/App.java:19-26 | whatever the workers do after main, each stage logs nothing or just the request; only workers already in take log it, and the stages that log it form a prefix of Pre, Print, Save |
| Application.BlockedPrefixLogs | src/main/java/com/tideseng/multithreading/application/App.java:19-26 | conversely, when the first m workers were in take, some schedule leaves the request logged by exactly the first m stages |
| FibonacciHash.IncrementIsInvertible | src/main/java/com/tideseng/multithreading/local/ThreadLocalDemo.java:44 | the increment 0x61c88647 is odd and 0xebb34377 is its inverse modulo 2^32 |
| FibonacciHash.Int32 | src/main/java/com/tideseng/multithreading/local/ThreadLocalDemo.java:48 | the wrapped value is a Java int congruent to the exact value modulo 2^32, and int values are left unchanged |
| FibonacciHash.HashCode | src/main/java/com/tideseng/multithreading/local/ThreadLocalDemo.java:48 | the wrapped hash code is a Java int congruent to (i + 1) * 0x61c88647 modulo 2^32 |
| FibonacciHash.BitAnd | src/main/java/com/tideseng/multithreading/local/ThreadLocalDemo.java:49 | the AND of two non-negative numbers is at most each of them |
| FibonacciHash.JavaAnd | src/main/java/com/tideseng/multithreading/local/ThreadLocalDemo.java:49 | the AND of two ints is an int, and lies in [0, y] when the mask y is non-negative |
| FibonacciHash.BitAndLowMask | src/main/java/com/tideseng/multithreading/local/ThreadLocalDemo.java:49 | AND with 2^k - 1 is the remainder modulo 2^k |
| FibonacciHash.JavaAndLowMask | src/main/java/com/tideseng/multithreading/local/ThreadLocalDemo.java:49 | a Java int AND a power-of-two mask 2^k - 1 is that int modulo 2^k, for every sign |
| FibonacciHash.SlotIndex | src/main/java/com/tideseng/multithreading/local/ThreadLocalDemo.java:49 | for any positive size the printed index lies in [0, size) |
| FibonacciHash.SlotIndexIsMod | src/main/java/com/tideseng/multithreading/local/ThreadLocalDemo.java:48-49 | for a power-of-two size the index is the hash code modulo size, that is (i + 1) * 0x61c88647 modulo size |
| FibonacciHash.SlotIndexInjective | src/main/java/com/tideseng/multithreading/local/ThreadLocalDemo.java:47-49 | for a power-of-two size, two iterations get the same slot exactly when they are the same iteration |
| FibonacciHash.SlotIndexCovers | src/main/java/com/tideseng/multithreading/local/ThreadLocalDemo.java:47-49 | for a power-of-two size, every slot in [0, size) is the index of some iteration |
| FibonacciHash.MaginHash | src/main/java/com/tideseng/multithreading/local/ThreadLocalDemo.java:45-52 | produces exactly max(size, 0) indices, the i-th being iteration i's slot, each in [0, size); for a power-of-two size they are pairwise distinct and cover every slot, so they form a permutation of 0 .. size-1 |

## Left out

- Threads are not modelled: `extends Thread`, `start()`, running workers in parallel, and `volatile` visibility of the flag. The model is a sequential state machine. A trace interleaves submissions, shutdowns, flag tests and takes.
- Stage.Step and ChainModel.Step treat take, print and forward as one atomic step. Other threads do touch the same inboxes: the successor's worker takes from the head of the inbox this step appends to, and for Pre, `main`'s `process` appends to the inbox this step takes from. A take at the head and an append at the tail commute, and a take on an empty inbox just waits. `StepsCommute` and `SubmitStepCommute` prove the commutation, so splitting the step changes no reachable outcome.
- The `Stop` event makes the whole recursive `shutdown` one event. In the code a worker can test its flag after Pre's flag is written and before its own is. Setting stage i's flag commutes with every event except stage i's own flag test (`SetFlagStepCommute`, `SetFlagCheckCommute`). So such an interleaving equals one with that flag test before `Stop`, and `blocked` already covers that case.
- The blocking `take` is not modelled as blocking. A take is enabled only when the inbox is non-empty. In a trace, a take by a worker whose inbox is empty is a no-op: the worker stays waiting.
- Which workers are already waiting in `take` when `main` runs is scheduling, and it is not determined. It is the parameter `blocked` of `ShutdownThenProcess`.
- The processing step of each stage only prints the request, which cannot throw, so no request is ever dropped at a stage. A processing step that fails has no counterpart in the code.
- `InterruptedException` handling in `run` is not modelled. Nothing in the model interrupts a worker.
- `System.out.println` is not modelled as output. Each stage appends the request it takes to its `log`, so the prefix that tells the stages apart (`"PrintProcessor: "`, `"SaveProcessor: "`) is not recorded.
- The `IRequestProcessor` interface is not modelled, and the `PreProcessor` source is not part of this model. All three stages are the one `Stage` class.
- Java's `null` name for a `Request` is not modelled. A name is always a string.
- Stage.Submit and ChainModel.Submit do not model the two ways `requests.add(request)` can throw. `process(null)` hands a null request to `LinkedBlockingQueue.add`, which throws NullPointerException; a model `Request` is never null. The queue's capacity is `Integer.MAX_VALUE`, and `add` on a full queue throws IllegalStateException; the model's inbox is unbounded. Neither case arises in `main`, which submits one non-null request.
- `ThreadLocalDemo.main`, `countLocal` and `strLocal` are not modelled. They are JDK `ThreadLocal` use and a racy shared counter. The printing in `maginHash` is modelled as the returned sequence of indices.
- The other demonstrations of the repository are not modelled: thread creation, states, interrupts, volatile, locks, conditions, read-write locks, pools, singletons and counters. Their subject is JDK concurrency behaviour.
