# A verified model of the Codis client's core

The repository holds clients for Codis, a proxy layer in front of Redis, in C++, Java and Python. This project models
the parts of it that keep state or do real arithmetic, and proves what they promise.

* **The event loop** (`ae.c` with its epoll and select backends, and the hiredis adapter on top). File events live in
  an array with a cached largest descriptor and a copy of the masks in the backend; timers live in an unsorted singly
  linked list. Callbacks are arbitrary scripts of the loop's own public operations, so a handler may register and
  delete anything while a poll result is being dispatched or a timer pass is under way. Every run is recorded as a
  history of steps (epoll_ctl calls, registrations, deletions, calls of handlers and timer callbacks), each put down
  where it is taken, that can be replayed. A timer pass leaves a record of the whole state before, between and after
  its callbacks.
* **Reference tracking by circles** (`gtest-linked_ptr.h`): pointer surgery on circular lists, refined to reference
  counting.
* **The accounting allocator** (`zmalloc.c`): a byte total in `size_t` arithmetic against the live blocks.
* **The Codis client**: key rewriting under a business id, multi-key and hash calls, the connection pool, the choice
  of a proxy in turn (C++ and Python), the discovery of proxies, and the text forms of numbers and addresses.
* **The Java retry policy**: bounded exponential backoff.

Classes with fields that change become Dafny classes; each of their methods is tied to a function on values, and the
laws are proved about those functions. The public operations say as well, in terms of the fields before and after, what
they do, and each function a contract leans on has a lemma that spells it out. `dafny verify dfyconfig.toml` checks
everything.

## Modules

| file | models |
|---|---|
| `CArithmetic.dfy`, `Sequences.dfy`, `Wrappers.dfy` | C integer operations, sequences without repetition, optional results |
| `EventTypes.dfy`, `TimerList.dfy`, `TimerPass.dfy`, `PollTimeout.dfy` | masks and operations, the timer list, the invariant of one timer pass, the sleeping time |
| `FileRuns.dfy`, `FileTable.dfy`, `Dispatch.dfy` | histories, the file table with both backends, what a dispatch does |
| `EventLoop.dfy`, `HiredisAe.dfy` | callbacks, `processTimeEvents`, `aeProcessEvents`, the hiredis adapter |
| `LinkedPtr.dfy`, `LinkedHandles.dfy` | circles of links, handles on top of them |
| `ZMalloc.dfy` | the allocator's account |
| `KeyRewrite.dfy`, `CodisClient.dfy` | key rewriting and tenants, the client's calls |
| `ClientPool.dfy`, `RoundRobin.dfy`, `TextForms.dfy`, `Backoff.dfy` | connections, proxies, text forms, retries |

## What the environment decides

The answers of the kernel, of malloc and of the network, the readings of the clock and the random numbers are
parameters. Assumptions on them are written as preconditions:

* event masks are non-empty subsets of AE_READABLE and AE_WRITABLE, and descriptors are not negative, as `ae.h` says;
* the kernel reports nothing outside what was asked for, no descriptor twice, and at most `setsize` entries
  (`FileTable.KernelContract`);
* all clock readings of one timer pass lie in a window [lo, hi], and a timer callback returns AE_NOMORE or a delay
  longer than the window, and then has not deleted its own timer (`EventLoop.Disciplined`). With a constant clock this
  is any delay of at least 1 ms. A callback that always returns less, but not AE_NOMORE, keeps `processTimeEvents`
  from ending under a still clock: `TimerPass.NeverEnds`;
* a raw pointer is given to a `linked_ptr` once; only lent connections are returned; blocks passed to the allocator
  are live.

## Where the code and its description differ

* The comment on `aeProcessEvents` (cpp/src/ae.c:308-309) says timers come first. The code handles file events first.
* The comment also says file events are processed if AE_FILE_EVENTS is set. As soon as any descriptor is registered,
  the code polls and dispatches file events with AE_TIME_EVENTS alone (cpp/src/ae.c:332-333); the model does the same
  (`EventLoop.EventLoop.PollPhase`).
* A function registered for reading and writing is meant to be called once per report. It is called twice exactly if
  its first call leaves it registered for writing and registers another for reading (`Dispatch.SharedHandlerTwiceIff`).
* A descriptor has one place for client data: a handler is given the data of the last registration in any direction,
  which need not be its own (`FileRuns.CallsCarryLastData`).
* For an overdue timer the poll does not return at once: it may sleep for up to a second
  (`PollTimeout.OverdueTimeout`).
* A deadline with a negative ms part can outlast the sleep chosen for it: the poll returns too early if its second has
  not come (`PollTimeout.SleptDueIff`).
* With anything ready, select counts all registered descriptors as fired, idle ones too (`Dispatch.CountsAgreeIff`).
* epoll turns errors and hang-ups into AE_WRITABLE, which a descriptor registered only for reading does not hear
  unless input is reported as well (`Dispatch.HangupUnheardIff`).
* The ms part of a deadline can be negative for negative delays; then the due test is not the order of instants
  (`TimerList.DueIsExactIff`).
* epoll's timeout is an `int`: sleeps of 2^31 ms and more are not kept (`PollTimeout.TimeoutIsExact`).
* The hiredis adapter sets its flag even when the loop refuses the registration (`HiredisAe.HookAgreesIff`).
* `RedisCommand` knows MGET, MSET and DEL in all upper or all lower case only. In any other spelling a command of
  several keys leaks out of the tenant's prefix (`KeyRewrite.RewritingPreservesIff`).
* `used_` counts lent connections only while none has been reused (`ClientPool.UsedIsLentIff`).
* `hgetall` drops an odd last element (`CodisClient.InterleaveSplitIff`); `split` drops an empty last part
  (`TextForms.SplitJoinIff`); an address with a colon of its own is cut (`RoundRobin.PublishedAreFoundIff`).
* The backoff delay can fall below its base when the base is negative (`Backoff.DelayBoundedIff`).

## Model

| member | source | states |
|---|---|---|
| `TimerList.AddMillisecondsDenotes` | cpp/src/ae.c:158-170 | a deadline denotes exactly the instant now + delay, for negative delays too, and its ms part is below a second in size |
| `TimerList.DeadlineDenotes` | cpp/src/ae.c:158-170 | the same for the deadline of a timer, which keeps its id |
| `TimerList.DueIsExactIff` | cpp/src/ae.c:274-275 | the due test is the order of instants at every later or earlier reading of the clock if and only if the ms part did not go negative |
| `TimerList.DueMonotone` | cpp/src/ae.c:274-275 | a due timer stays due as time passes |
| `TimerList.EarlierIsSooner` | cpp/src/ae.c:230-232 | for regular deadlines the comparison of fields is the order of instants |
| `TimerList.NearestIsSoonest` | cpp/src/ae.c:224-237 | the timer found is no later than any listed one, and sooner than every one before it |
| `TimerList.DueAgainIff` | cpp/src/ae.c:295-300 | a timer put off at the same instant is due again, so that the pass meets it again, if and only if the delay is not positive |
| `TimerList.RescheduledNotDue` | cpp/src/ae.c:295-296 | a timer put off beyond the clock window is due nowhere in it |
| `TimerList.TimerQueue.constructor` | cpp/src/ae.c:71-73 | a new loop has no timers, next id 0 and the current second as last time |
| `TimerList.TimerQueue.CreateTimeEvent` | cpp/src/ae.c:172-189 | the new timer becomes the head with the next id, and its seconds and ms denote the instant now + delay; the rest stays; the list stays acyclic with strictly decreasing ids; the id is spent even when malloc fails |
| `TimerList.TimerQueue.Push` | cpp/src/ae.c:181-187 | the new node becomes the head of a list that stays well linked |
| `TimerList.TimerQueue.DeleteTimeEvent` | cpp/src/ae.c:191-211 | succeeds if and only if the id is listed, removes that timer alone and keeps the others in order with their deadlines |
| `TimerList.TimerQueue.Find` | cpp/src/ae.c:193-209 | the walk ends at the first node with the id, or at the end, with its predecessor in hand |
| `TimerList.TimerQueue.Unlink` | cpp/src/ae.c:198-201 | exactly the node at its place leaves the list, head or not, and the list is still linked and in order |
| `TimerList.TimerQueue.Bypass` | cpp/src/ae.c:198-201 | the assignment changes the one pointer that led to the node and no other |
| `TimerList.TimerQueue.SearchNearestTimer` | cpp/src/ae.c:224-237 | null only for an empty list; otherwise, for regular deadlines, a listed node whose sec * 1000 + ms is at most that of every listed timer and strictly below that of every one before it |
| `TimerList.TimerQueue.ForceAll` | cpp/src/ae.c:254-260 | the clock-skew loop sets every listed deadline's seconds to 0 and leaves the list alone |
| `TimerList.CutIsLinked` | cpp/src/ae.c:198-201 | a list whose node before k skips it is linked without it |
| `TimerList.DropMeans` | cpp/src/ae.c:196-205 | dropping an id from an ordered list drops that timer and no other |
| `TimerList.PutOffMeans` | cpp/src/ae.c:296 | putting a listed timer off replaces its deadline and nothing else |
| `TimerList.AfterOpMeans` | cpp/src/ae.c:172-211 | an operation, spelled out: a new timer comes first, with the next id and the instant asked for; a deletion takes exactly its id; nothing else changes |
| `TimerList.AfterOpsAppend` | cpp/src/ae.c:172-211 | scripts of operations compose |
| `TimerList.AfterOpsOrdered` | cpp/src/ae.c:172-211 | a script keeps ids strictly decreasing, takes no id back and never brings back an old timer |
| `TimerPass.Compose` | cpp/src/ae.c:282-286 | the changes of several callbacks compose: listed timers stay unless deleted by id, and what is new has an id from the next one on |
| `TimerPass.FireIsFirst` | cpp/src/ae.c:273-280 | a due timer met by the pass has not fired before, was listed and due at the start, and its firing lowers the measure that ends the pass |
| `TimerPass.FireKeepsListed` | cpp/src/ae.c:280-300 | whatever the callback does, old timers still listed are those of the start, the fired ones not due again and the others unchanged |
| `TimerPass.FireKeepsFired` | cpp/src/ae.c:280-281 | each timer fires at most once, and only timers listed and due at the start |
| `TimerPass.FireKeepsOrder` | cpp/src/ae.c:300 | with a still clock timers fire newest first, because the walk restarts from the head |
| `TimerPass.PassBegins` | cpp/src/ae.c:263-264 | the invariant of the pass holds at the head of the list |
| `TimerPass.PassSkips` | cpp/src/ae.c:269-271 | passing over a timer that is new or not due keeps the invariant |
| `TimerPass.PassFires` | cpp/src/ae.c:274-300 | firing a due timer and restarting from the head keeps the invariant and lowers the measure |
| `TimerPass.PassEnds` | cpp/src/ae.c:265-305 | at the end of the list no old timer is due, and every timer due at the start has fired or was deleted |
| `TimerPass.PassedOf` | cpp/src/ae.c:240-306 | what a finished pass has achieved, on values: each timer fired once at most, listed and due at the start; all due then fired or deleted; none of the start due any more; the rest untouched |
| `TimerPass.ScriptActsApart` | cpp/src/ae.c:104-211 | a script of operations acts on timers and files apart |
| `TimerPass.WentMeans` | cpp/src/ae.c:369-388 | what a dispatch does to the whole state: steps replayed and recorded, operations folded over the timers |
| `TimerPass.FireOnFiles` | cpp/src/ae.c:280 | a timer callback puts its call on record, then its script acts on files, history and stop flag |
| `TimerPass.FireOnTimers` | cpp/src/ae.c:280-299 | on timers its script acts; then the one fired is gone if it asked for no more, and otherwise, if still listed, stands with the instant reading + delay; all others are untouched |
| `TimerPass.BegunMeans` | cpp/src/ae.c:254-261 | a pass starts from the timers as they are unless the clock stepped back, and then from the same timers in second 0; nothing else differs |
| `TimerPass.ForwardPass` | cpp/src/ae.c:263-305 | without a step back: what fires was due under its deadline before the pass, what was due fires or is deleted by a callback, and what was not due and is not deleted is still listed unchanged |
| `TimerPass.BackwardPass` | cpp/src/ae.c:254-305 | after a step back: only timers of the start fire, and from second 1 on each of them fires or is deleted by a callback |
| `TimerPass.FiredEnds` | cpp/src/ae.c:295-299 | a timer that asked for no more is not listed at the end, and one that asked for a delay stands with it unless a callback deletes it |
| `TimerPass.AbsentStays` | cpp/src/ae.c:266-271 | an old id that is not listed never comes back in a pass |
| `TimerPass.LogExtends` | cpp/src/ae.c:277-300 | one more callback extends the record of the pass: the call, its script, and the settling of its timer |
| `TimerPass.GoneMeans` | cpp/src/ae.c:280 | the ids counted as deleted are exactly those some callback of the pass deleted |
| `TimerPass.DeletedIdsMean` | cpp/src/ae.c:191-211 | the ids a script deletes are those it names in a deletion |
| `TimerPass.DueFiredOrDeleted` | cpp/src/ae.c:263-304 | a timer due at the start has fired, or one of the callbacks of the pass deleted it |
| `TimerPass.BackwardsFiresAll` | cpp/src/ae.c:246-260 | after a step back of the clock, from second 1 on, every timer has fired or one of the callbacks of the pass deleted it |
| `TimerPass.TimerSurvives` | cpp/src/ae.c:282-299 | nothing is lost: a timer listed at any point of the pass, old or new, is still listed at the end with its deadline unless it fires later or a later callback deletes it |
| `TimerPass.PutOffIsListed` | cpp/src/ae.c:295-296 | a timer put off is listed at the end with an instant between lo + delay and hi + delay, [lo, hi] being the window of the clock, unless a callback deletes it |
| `TimerPass.FireIterates` | cpp/src/ae.c:269-303 | an iteration that finds a due timer does to the timers what the callback and its settling do |
| `TimerPass.NeverEnds` | cpp/src/ae.c:295-300 | a callback that always returns a value below 1 other than AE_NOMORE keeps the pass from ending within any number of iterations, whatever the others do, as long as none deletes its timer |
| `TimerPass.DueMeansFired` | cpp/src/ae.c:239-306 | a pass that begins with a due timer fires at least one, deadlines forced or not |
| `PollTimeout.TimeoutIsExact` | cpp/src/ae.c:338-355 | for a deadline not in the past the timeout is exactly the time left if and only if its ms part is not more than a second behind that of the clock, which holds of every regular one; epoll's millisecond count keeps it if and only if it fits an int |
| `PollTimeout.OverdueTimeout` | cpp/src/ae.c:347-355 | for an overdue timer the timeout is below one second and lasts until the ms part of the clock is that of the deadline, or is zero where a second is not enough; zero if and only if the ms parts coincide or that is so |
| `PollTimeout.SleptDueIff` | cpp/src/ae.c:347-355 | under both backends, when the time chosen for a timer has been slept it is due if and only if its ms part is not negative or its second had come before |
| `PollTimeout.SleptMeansDue` | cpp/src/ae_epoll.c:107-108 | so a timer meeting that condition is due at any later reading of the clock |
| `FileRuns.OpReplays` | cpp/src/ae.c:104-140 | the steps of an operation lead to the masks and the interest set it asks for, and are legal as long as the backend is in step |
| `FileRuns.OpStepsSafe` | cpp/src/ae.c:104-140 | one operation keeps the backend in step with the masks and never asks epoll to ADD a known descriptor or to MOD or DEL an unknown one, also when the kernel refuses |
| `FileRuns.FileOpSpelledOut` | cpp/src/ae.c:104-140 | spelled out: a registration adds its directions with handler and data, and the kernel hears of the union; a deletion takes its directions away, and the kernel hears of what is left; a refusal changes nothing; no other descriptor changes |
| `FileRuns.OpsStepsSafe` | cpp/src/ae.c:104-140 | the same over any sequence of operations |
| `FileRuns.OpsStepsAppend` | cpp/src/ae.c:104-140 | the steps of a script are those of its parts, each on the state the last left |
| `FileRuns.Append` | cpp/src/ae.c:321-395 | histories compose: state and safety of a run are those of its parts in sequence |
| `FileRuns.FireSafe` | cpp/src/ae.c:370-388 | the calls for one fired descriptor are legal: the direction is reported and still registered at the instant of the call |
| `FileRuns.FireSpelledOut` | cpp/src/ae.c:376-387 | spelled out: the read handler when reading is reported and registered, with its script; then, on the table that leaves, the write handler when writing is, unless it is the function just run |
| `FileRuns.DispatchSafe` | cpp/src/ae.c:369-388 | dispatching a whole poll result is safe whatever the handlers do to the registrations meanwhile |
| `FileRuns.DispatchByOne` | cpp/src/ae.c:370-388 | dispatching one entry is firing it, and none is nothing |
| `FileRuns.DispatchAppend` | cpp/src/ae.c:370-388 | a dispatch goes entry by entry, each on the state the last left |
| `FileRuns.PathOf` | cpp/src/ae.c:370-388 | going through the fired descriptors one by one, each on the state the last left, ends where the whole dispatch ends |
| `FileRuns.Origin` | cpp/src/ae.c:115-118 | a direction that stands registered goes back to a registration of its handler, touched by nothing since |
| `FileRuns.CallsHaveStandingRegistrations` | cpp/src/ae.c:376-386 | in any safe run from an empty table every handler call answers a registration of that very handler for that direction, with no deletion or replacement in between |
| `FileRuns.CallsCarryLastData` | cpp/src/ae.c:118-386 | the client data a handler is given is that of the last registration of its descriptor in any direction |
| `FileTable.HighestBelow` | cpp/src/ae.c:131-138 | the downward scan yields the largest registered descriptor below a bound, or -1 |
| `FileTable.CreatedGood` | cpp/src/ae.c:104-122 | after aeCreateFileEvent maxfd is exact and the backend mirrors the masks; the new state is the replay of its steps |
| `FileTable.DeletedGood` | cpp/src/ae.c:124-140 | the same for aeDeleteFileEvent |
| `FileTable.PollResultFits` | cpp/src/ae_select.c:79-93 | under both backends a poll result fits fired[], names only registered descriptors, and none twice |
| `FileTable.FileTable.constructor` | cpp/src/ae.c:62-91 | every mask is cleared, whatever malloc left in the array, and maxfd is -1 |
| `FileTable.FileTable.EpollCtl` | cpp/src/ae_epoll.c:80-99 | every call is legal where the run stands and goes on record; the kernel refuses or changes its interest set; ADD is asked for a descriptor exactly when it is unknown |
| `FileTable.FileTable.ApiAddEvent` | cpp/src/ae_epoll.c:66-82 | epoll asks with ADD or MOD, as its record of the mask says, for the union with the old mask, and fails when the kernel refuses; select sets the bits |
| `FileTable.FileTable.ApiDelEvent` | cpp/src/ae_epoll.c:84-101 | epoll keeps what is left with MOD or drops the descriptor with DEL; select clears the bits |
| `FileTable.FileTable.CreateFileEvent` | cpp/src/ae.c:104-122 | AE_OK exactly when the descriptor fits and the backend accepts; then the slot has the directions, handlers and data asked for, every other slot its old contents; maxfd is the highest registered descriptor; the steps taken and recorded one by one are those of the operation; the invariant is kept and a refusal changes no slot |
| `FileTable.FileTable.AddAndSet` | cpp/src/ae.c:113-118 | the slot is written exactly when the backend agrees, and the steps taken are those of the operation |
| `FileTable.FileTable.SetMask` | cpp/src/ae.c:115-118 | mask, handlers and client data of one slot become those of the registration |
| `FileTable.FileTable.DeleteFileEvent` | cpp/src/ae.c:124-140 | the slot keeps exactly its other directions, its handlers and data, every other slot its contents; maxfd is the highest registered descriptor; the steps taken and recorded one by one are those of the operation; the invariant is kept |
| `FileTable.FileTable.ClearAndForget` | cpp/src/ae.c:130-139 | mask, largest descriptor and backend follow one after the other, each step recorded |
| `FileTable.FileTable.ClearMask` | cpp/src/ae.c:130 | one slot loses the directions deleted |
| `FileTable.FileTable.LowerMaxFd` | cpp/src/ae.c:131-138 | the scan finds the highest descriptor left |
| `FileTable.FileTable.ApiPoll` | cpp/src/ae_epoll.c:103-126 | fired[] holds the entries of the kernel's answer and the table is untouched |
| `FileTable.FileTable.ApiPollEpoll` | cpp/src/ae_epoll.c:109-125 | one entry per event, errors and hang-ups as AE_WRITABLE |
| `FileTable.FileTable.ApiPollSelect` | cpp/src/ae_select.c:70-95 | one entry per registered descriptor in ascending order, idle ones with mask 0, nothing on a timeout |
| `Dispatch.SideFollows` | cpp/src/ae.c:104-140 | what a script leaves of one direction of a descriptor is the fold of its accepted operations |
| `Dispatch.CallsTwiceIff` | cpp/src/ae.c:379-386 | one fired descriptor gets two calls if and only if reading stands, both directions are reported, and the read handler's script leaves writing registered with a function other than the one then on record for reading |
| `Dispatch.SameFunctionTwiceIff` | cpp/src/ae.c:379-386 | a function runs twice for one fired descriptor if and only if both directions are reported, it stands for reading, and its script leaves writing registered with it while the last registration for reading is of another |
| `Dispatch.SharedHandlerTwiceIff` | cpp/src/ae.c:379-386 | the same for a handler shared by both directions |
| `Dispatch.HandlersKept` | cpp/src/ae.c:104-140 | operations that do not register a descriptor leave its handlers alone |
| `Dispatch.SharedHandlerOnce` | cpp/src/ae.c:383-386 | a handler for both directions gets at most one call per report as long as that call does not register the descriptor again |
| `Dispatch.SharedHandlerCanRunTwice` | cpp/src/ae.c:379-386 | without that proviso it can run twice: a concrete case |
| `Dispatch.InertFire` | cpp/src/ae.c:370-388 | handlers that leave the registrations alone get exactly the calls of the fired entry |
| `Dispatch.InertDispatch` | cpp/src/ae.c:369-388 | a dispatch makes exactly the calls of its entries, in whatever order they come |
| `Dispatch.SelectReports` | cpp/src/ae_select.c:84-91 | each of select's entries carries the ready part of its descriptor's mask |
| `Dispatch.SelectIndex` | cpp/src/ae_select.c:80-92 | every registered descriptor has an entry |
| `Dispatch.EpollSpelledOut` | cpp/src/ae_epoll.c:113-123 | one entry per event, in order: readable for input, writable for output, error or hang-up |
| `Dispatch.SelectSpelledOut` | cpp/src/ae_select.c:79-93 | nothing when nothing is ready; otherwise exactly the registered descriptors in ascending order, each with the ready part of its mask |
| `Dispatch.NothingReady` | cpp/src/ae_select.c:79 | an empty answer gives an empty report under both backends |
| `Dispatch.BackendsAgree` | cpp/src/ae_select.c:70-95 | for the same readiness without errors or hang-ups, and inert handlers, select and epoll lead to the same set of handler calls |
| `Dispatch.CountsAgreeIff` | cpp/src/ae_select.c:80-92 | the numbers of fired entries agree if and only if every registered descriptor is ready |
| `Dispatch.HangupUnheardIff` | cpp/src/ae_epoll.c:117-120 | a report with an error or hang-up reaches no handler if and only if the descriptor is not registered for writing, nor for reading with input reported |
| `EventLoop.EventLoop.constructor` | cpp/src/ae.c:62-91 | a new loop is valid, empty and not stopped |
| `EventLoop.EventLoop.DoStop` | cpp/src/ae.c:100-102 | the stop flag is set and nothing else changes |
| `EventLoop.EventLoop.DoOp` | cpp/src/ae.c:100-211 | one public operation keeps the loop valid; timers with their deadlines, files, history and stop flag become what the operation says |
| `EventLoop.EventLoop.RunOps` | cpp/src/ae.c:100-211 | any script of operations keeps the loop valid; the whole state is the fold of the script |
| `EventLoop.EventLoop.RunCallback` | cpp/src/ae.c:280 | the call of a timer callback goes on record, then its script runs |
| `EventLoop.EventLoop.Settle` | cpp/src/ae.c:295-299 | after its callback a timer is deleted, or carries the delay asked for counted from a reading in the window and is due nowhere in it |
| `EventLoop.EventLoop.SetDeadline` | cpp/src/ae.c:296 | the deadline of the one timer is replaced, the list stays |
| `EventLoop.EventLoop.FireTimer` | cpp/src/ae.c:277-299 | the whole state becomes what the callback, its script and the settling of its timer make of it |
| `EventLoop.EventLoop.TestClock` | cpp/src/ae.c:254-261 | deadlines are forced exactly when the clock stepped back |
| `EventLoop.EventLoop.BeginPass` | cpp/src/ae.c:244-264 | the same, and the pass invariant holds at the head |
| `EventLoop.EventLoop.TestAndWalk` | cpp/src/ae.c:244-305 | from the test of the clock to the end of the walk: the record of the pass and what it achieves |
| `EventLoop.EventLoop.PassFire` | cpp/src/ae.c:277-300 | firing a due timer keeps the invariant, lowers the measure, and makes of the state what its callback does |
| `EventLoop.EventLoop.PassStep` | cpp/src/ae.c:265-304 | a timer fires exactly when it is old and due; then the state is what its callback makes of it and the walk restarts; otherwise nothing changes |
| `EventLoop.EventLoop.WalkOn` | cpp/src/ae.c:265-304 | the same, put on record; position and timers go through one iteration of the loop |
| `EventLoop.EventLoop.Walk` | cpp/src/ae.c:263-305 | the restarting walk ends, although callbacks add and delete timers; its record leads from the first state to the last and counts the callbacks run |
| `EventLoop.EventLoop.ProcessTimeEvents` | cpp/src/ae.c:240-306 | the pass ends; its record leads callback by callback from the state at the start to that at the end, and the result counts the callbacks; each timer fires once at most; none of the start is due at the end; in terms of the timers before the call and their old deadlines: while the clock has not stepped back, what fires was due, what was due fires or is deleted by a callback, and what was not due and is not deleted is still listed with its deadline; after a step back only old timers fire, and from second 1 on each fires or is deleted; whoever asked for no more is gone; whoever asked for a delay and is not deleted is listed with an instant between lo + delay and hi + delay |
| `EventLoop.EventLoop.CallHandler` | cpp/src/ae.c:379-386 | a handler gets what the table holds at that instant and its call is on record before what it does |
| `EventLoop.EventLoop.ReadSide` | cpp/src/ae.c:379-382 | the read handler runs exactly when reading is reported and still registered |
| `EventLoop.EventLoop.WriteSide` | cpp/src/ae.c:383-386 | the write handler runs exactly when writing is reported and still registered, unless the same function has just run for reading |
| `EventLoop.EventLoop.HandleFired` | cpp/src/ae.c:370-388 | the two halves together take the steps of the fired descriptor, on the table as the read handler left it |
| `EventLoop.EventLoop.DispatchLoop` | cpp/src/ae.c:370-388 | the loop goes from stage to stage of the dispatch |
| `EventLoop.EventLoop.Dispatch` | cpp/src/ae.c:369-388 | the loop over fired[] takes exactly the steps of the dispatch, and timers and stop flag are what the handlers called made of them |
| `EventLoop.EventLoop.ChooseWait` | cpp/src/ae.c:338-367 | zero with AE_DONT_WAIT, for ever without timers; otherwise the time of the first of the nearest timers: when no deadline is in the past the sleep ends at a listed deadline and after none |
| `EventLoop.SleepEndsInTime` | cpp/src/ae.c:338-355 | the sleep chosen for the nearest timer ends at a listed deadline and after none, so that no timer becomes due before it is over |
| `EventLoop.EventLoop.SleepAndPoll` | cpp/src/ae.c:338-389 | the sleep is chosen, the kernel polled and its report dispatched |
| `EventLoop.EventLoop.RegisteredIff` | cpp/src/ae.c:332 | the largest descriptor is -1 if and only if none is registered |
| `EventLoop.EventLoop.PollIfAwake` | cpp/src/ae.c:332-389 | the branch is taken exactly as its test says |
| `EventLoop.EventLoop.PollPhase` | cpp/src/ae.c:332-389 | the loop polls if and only if some descriptor of the old table has a mask or it may sleep for timers; then the reported entries are those of the kernel's answer, all are counted, and the state goes through their dispatch; otherwise none is counted and nothing changes; the sleep ends at the nearest deadline |
| `EventLoop.EventLoop.TimerPhase` | cpp/src/ae.c:390-394 | without AE_TIME_EVENTS nothing fires and nothing changes; with it a complete pass follows, which fires if some timer's time was slept out |
| `EventLoop.EventLoop.ProcessEvents` | cpp/src/ae.c:321-395 | with some event flag set, the loop polls if and only if some descriptor of the old table has a mask or time events are wanted without AE_DONT_WAIT; then the entries reported are those of the kernel's answer, they are counted, and the state before the timer pass is the old one taken through their dispatch; otherwise no entry is counted and that state is the old one; without AE_TIME_EVENTS it is also the last one, with it a complete timer pass follows, and the callbacks are counted; when no deadline is in the past the sleep ends at a listed deadline and after none; a poll that reported nothing and slept its time out is followed by at least one timer, also when the clock was set back |
| `EventLoop.Progress` | cpp/src/ae.c:338-392 | a pass after a poll that slept its time out fires |
| `HiredisAe.SlotAgreesIff` | cpp/3party/include/hiredis/hiredis_ae.h:29-63 | a hook keeps flags and mask bits equal if and only if the loop accepts what it asks for |
| `HiredisAe.HookAgreesIff` | cpp/3party/include/hiredis/hiredis_ae.h:29-63 | the same, and no other slot changes |
| `HiredisAe.HookIdempotent` | cpp/3party/include/hiredis/async.h:76-82 | repeating a hook changes nothing |
| `HiredisAe.RedisAeEvents.AddRead` | cpp/3party/include/hiredis/hiredis_ae.h:29-36 | sets the flag, leaves the other, and registers for reading with the connection as data unless already reading; the table changes in no other slot |
| `HiredisAe.RedisAeEvents.DelRead` | cpp/3party/include/hiredis/hiredis_ae.h:38-45 | clears the flag, leaves the other, and deletes the read side alone unless not reading; the table changes in no other slot |
| `HiredisAe.RedisAeEvents.AddWrite` | cpp/3party/include/hiredis/hiredis_ae.h:47-54 | sets the flag, leaves the other, and registers for writing with the connection as data unless already writing; the table changes in no other slot |
| `HiredisAe.RedisAeEvents.DelWrite` | cpp/3party/include/hiredis/hiredis_ae.h:56-63 | clears the flag, leaves the other, and deletes the write side alone unless not writing; the table changes in no other slot |
| `HiredisAe.RedisAeEvents.Cleanup` | cpp/3party/include/hiredis/hiredis_ae.h:65-74 | the loop is told to stop, and the descriptor ends unregistered if and only if every direction it stood registered for had its flag set, as in a connection in step; no other slot changes |
| `HiredisAe.Attach` | cpp/3party/include/hiredis/hiredis_ae.h:76-100 | refuses a context already attached; a new attachment agrees with the loop if and only if its descriptor fits the table and is unregistered |
| `HiredisAe.HookStays` | cpp/3party/include/hiredis/hiredis_ae.h:29-63 | a hook touches only its own slot, in step or not |
| `HiredisAe.RunHook` | cpp/3party/include/hiredis/hiredis_ae.h:29-63 | one hook call changes only its own connection, which stays in step if and only if the kernel did not refuse it |
| `HiredisAe.LastCallDecides` | cpp/3party/include/hiredis/hiredis_ae.h:29-63 | a flag is set after any sequence of calls if and only if the connection's last call about it set it, or none was made and it was set before |
| `HiredisAe.RunHooks` | cpp/3party/include/hiredis/hiredis_ae.h:29-63 | over any sequence of hook calls on many connections the flags depend on the connection's own calls only, and every connection never refused ends with flags equal to its mask bits, whatever was refused to others |
| `LinkedPtr.FromCycles` | cpp/3party/include/gtest/internal/gtest-linked_ptr.h:112-113 | a cycle read from another of its links is a cycle |
| `LinkedPtr.JoinedAgrees` | cpp/3party/include/gtest/internal/gtest-linked_ptr.h:108-116 | after join every live link is on exactly one circle |
| `LinkedPtr.DepartedAgrees` | cpp/3party/include/gtest/internal/gtest-linked_ptr.h:120-129 | after depart the links left are each on exactly one circle |
| `LinkedPtr.CycleExtended` | cpp/3party/include/gtest/internal/gtest-linked_ptr.h:114-115 | a link put between last and first makes a longer cycle |
| `LinkedPtr.CycleCut` | cpp/3party/include/gtest/internal/gtest-linked_ptr.h:127 | a cycle whose last link skips the first is a cycle without it |
| `LinkedPtr.OnePredecessor` | cpp/3party/include/gtest/internal/gtest-linked_ptr.h:112-126 | a live link has one predecessor among all live links |
| `LinkedPtr.AloneIffSelf` | cpp/3party/include/gtest/internal/gtest-linked_ptr.h:124 | a link points to itself if and only if it is alone on its circle |
| `LinkedPtr.Link.JoinNew` | cpp/3party/include/gtest/internal/gtest-linked_ptr.h:92-94 | the link points to itself; all circles stay disjoint cycles |
| `LinkedPtr.Link.Join` | cpp/3party/include/gtest/internal/gtest-linked_ptr.h:108-116 | the search ends; the link points to ptr, the one link that pointed to ptr points to it, and no other pointer changes; all circles stay disjoint cycles |
| `LinkedPtr.Link.Enter` | cpp/3party/include/gtest/internal/gtest-linked_ptr.h:114-115 | put between predecessor and successor the link is on their circle |
| `LinkedPtr.Link.Depart` | cpp/3party/include/gtest/internal/gtest-linked_ptr.h:120-129 | the search ends; the one other link that pointed to this one points to its successor, and no other pointer changes; all circles stay disjoint cycles; true exactly when the link pointed to itself, that is was alone |
| `LinkedPtr.Link.Skip` | cpp/3party/include/gtest/internal/gtest-linked_ptr.h:127 | once its predecessor skips it the link is on no circle |
| `LinkedPtr.Link.Predecessor` | cpp/3party/include/gtest/internal/gtest-linked_ptr.h:112-126 | from a link or its successor the walk reaches its predecessor |
| `LinkedPtr.Link.Search` | cpp/3party/include/gtest/internal/gtest-linked_ptr.h:112-126 | walking a cycle reaches the predecessor |
| `LinkedHandles.Refs.ReleaseSound` | cpp/3party/include/gtest/internal/gtest-linked_ptr.h:194-196 | letting go deletes an object exactly with its last reference |
| `LinkedHandles.Refs.CaptureSound` | cpp/3party/include/gtest/internal/gtest-linked_ptr.h:198-201 | capturing a fresh pointer keeps: deleted exactly when captured and held by nobody, never twice |
| `LinkedHandles.Refs.ShareSound` | cpp/3party/include/gtest/internal/gtest-linked_ptr.h:203-209 | sharing keeps the same |
| `LinkedHandles.AllGone` | cpp/3party/include/gtest/internal/gtest-linked_ptr.h:143 | when every handle is gone exactly the captured objects have been deleted, each once |
| `LinkedHandles.StepSound` | cpp/3party/include/gtest/internal/gtest-linked_ptr.h:140-171 | every public operation keeps the same |
| `LinkedHandles.LiveAfter` | cpp/3party/include/gtest/internal/gtest-linked_ptr.h:140-171 | construction and copying make one handle live, destruction ends one, and no other becomes or ceases to be live |
| `LinkedHandles.StepMeans` | cpp/3party/include/gtest/internal/gtest-linked_ptr.h:140-171 | an operation, spelled out: what the handle holds, that no other handle changes, what counts as captured, and that an object is deleted exactly when the handle that let go was its last holder |
| `LinkedHandles.DeletesAtLastRelease` | cpp/3party/include/gtest/internal/gtest-linked_ptr.h:140-171 | an operation deletes an object if and only if it was held before and is not held after |
| `LinkedHandles.RunSound` | cpp/3party/include/gtest/internal/gtest-linked_ptr.h:140-209 | over any run nothing is deleted twice or while held, and at the end everything captured has been deleted |
| `LinkedHandles.AloneIffLast` | cpp/3party/include/gtest/internal/gtest-linked_ptr.h:118-124 | a circle has one link if and only if the handle is the last reference or holds nothing |
| `LinkedHandles.Track.ReleasedConsistent` | cpp/3party/include/gtest/internal/gtest-linked_ptr.h:194-196 | circles keep standing for references when a handle lets go |
| `LinkedHandles.Track.SharedConsistent` | cpp/3party/include/gtest/internal/gtest-linked_ptr.h:203-209 | circles keep standing for references when a handle copies another |
| `LinkedHandles.Arena.Depart` | cpp/3party/include/gtest/internal/gtest-linked_ptr.h:194-196 | the pointer steps refine releasing a reference; the object is deleted if and only if no other live handle holds it |
| `LinkedHandles.Arena.Capture` | cpp/3party/include/gtest/internal/gtest-linked_ptr.h:198-201 | the pointer steps refine capturing |
| `LinkedHandles.Arena.Copy` | cpp/3party/include/gtest/internal/gtest-linked_ptr.h:203-209 | the pointer steps refine sharing, for null pointers too |
| `LinkedHandles.Arena.New` | cpp/3party/include/gtest/internal/gtest-linked_ptr.h:142 | the handle holds the pointer given, it alone becomes live, every other keeps its value, nothing is deleted |
| `LinkedHandles.Arena.CopyOf` | cpp/3party/include/gtest/internal/gtest-linked_ptr.h:146-150 | the handle holds what the source held, it alone becomes live, every other keeps its value, nothing is deleted |
| `LinkedHandles.Arena.Assign` | cpp/3party/include/gtest/internal/gtest-linked_ptr.h:159-165 | the handle holds what the source held, the same handles are live, every other keeps its value, and the object let go is deleted if and only if it is no self-assignment and no other live handle held it |
| `LinkedHandles.Arena.Replace` | cpp/3party/include/gtest/internal/gtest-linked_ptr.h:161-162 | letting go and sharing refine the two steps of reference counting |
| `LinkedHandles.Arena.Retake` | cpp/3party/include/gtest/internal/gtest-linked_ptr.h:169-170 | letting go and capturing refine the two steps of reference counting |
| `LinkedHandles.Arena.Reset` | cpp/3party/include/gtest/internal/gtest-linked_ptr.h:168-171 | the handle holds the pointer given, the same handles are live, every other keeps its value, and the object let go is deleted if and only if no other live handle held it |
| `LinkedHandles.Arena.Destroy` | cpp/3party/include/gtest/internal/gtest-linked_ptr.h:143 | the handle alone is no longer live, every other keeps its value, and the object let go is deleted if and only if no other live handle held it |
| `ZMalloc.BitTrick` | cpp/src/zmalloc.c:93 | masking with sizeof(long)-1 is the remainder, so that the code pads to the next multiple |
| `ZMalloc.RoundsUp` | cpp/src/zmalloc.c:185-192 | a size is rounded to the least multiple of sizeof(long) not below it, and a block is charged that and its prefix |
| `ZMalloc.RoundingCommutesIff` | cpp/src/zmalloc.c:91-109 | rounding with a prefix is rounding plus the prefix, for all sizes, if and only if the prefix is a whole number of longs |
| `ZMalloc.RoundWithPrefix` | cpp/src/zmalloc.c:133-208 | on size_t, what zmalloc charges and zfree credits is what zmalloc_size says |
| `ZMalloc.TotalWithout` | cpp/src/zmalloc.c:185-192 | the total of the live blocks does not depend on the order of counting, and that of none is 0 |
| `ZMalloc.StepAccounted` | cpp/src/zmalloc.c:124-211 | every call keeps used_memory equal to the total of the live blocks |
| `ZMalloc.StepMeans` | cpp/src/zmalloc.c:124-211 | a call yields one block with the size asked for, or ends one, or both; every other block lives on with its header |
| `ZMalloc.ReallocAccounted` | cpp/src/zmalloc.c:152-179 | zrealloc keeps it although it charges and credits without the prefix |
| `ZMalloc.AccountedIsExact` | cpp/src/zmalloc.c:152-238 | while the total fits a size_t it is exact, no credit underflows, be it that of zfree with the prefix or that of zrealloc without it, and with nothing live the counter is 0 |
| `ZMalloc.RunAccounted` | cpp/src/zmalloc.c:124-211 | over any run of zmalloc, zcalloc, zrealloc and zfree used_memory is the total of the live blocks modulo the size of size_t, and exactly while that fits |
| `ZMalloc.HeadersAreSizesAsked` | cpp/src/zmalloc.c:133-211 | over any run a block is live if and only if a call yielded it that no later one ended, or it was live before and untouched, and its header is the size asked for by the last call that yielded it |
| `ZMalloc.ZHeap.StatAlloc` | cpp/src/zmalloc.c:91-99 | adds the rounded size, modulo the size of size_t |
| `ZMalloc.ZHeap.StatFree` | cpp/src/zmalloc.c:101-109 | subtracts the rounded size, modulo the size of size_t |
| `ZMalloc.ZHeap.Malloc` | cpp/src/zmalloc.c:124-150 | the new block's header is the size asked for and every other keeps its own; on NULL nothing changes; used_memory is the total of the live blocks |
| `ZMalloc.ZHeap.Resize` | cpp/src/zmalloc.c:152-179 | the block yielded has the size asked for as header, the old one is gone if it moved, every other keeps its own; on NULL nothing changes; used_memory is the total of the live blocks |
| `ZMalloc.ZHeap.SizeOf` | cpp/src/zmalloc.c:185-192 | the size charged for the block, never more than the total |
| `ZMalloc.ZHeap.Release` | cpp/src/zmalloc.c:195-211 | the block and no other is gone, none for NULL; used_memory is the total of the live blocks |
| `KeyRewrite.RewriteCommand` | cpp/src/CodisClient.cpp:918-963 | the loop puts the business id and an underscore before every argument of MGET and DEL, every second one of MSET, the first of any other command, in all upper or all lower case, and leaves the rest, and everything without a business id, as it is |
| `KeyRewrite.RewritesKeysIff` | cpp/src/CodisClient.cpp:920-963 | the prefix goes before exactly the server's keys if and only if the command is spelled in a way the client knows or has one key |
| `KeyRewrite.ViewSet` | cpp/src/CodisClient.cpp:926 | writing a prefixed key is writing the key in the view |
| `KeyRewrite.ViewRemove` | cpp/src/CodisClient.cpp:948 | removing a prefixed key is removing the key from the view |
| `KeyRewrite.PrefixPreserves` | cpp/src/CodisClient.cpp:909-1030 | a command with all keys prefixed gives on the shared store the reply and the view that the original gives on the view, and touches nothing outside the prefix |
| `KeyRewrite.RewritingPreservesIff` | cpp/src/CodisClient.cpp:918-963 | the command the client sends does so on every store if and only if there is no business id or the command is harmless |
| `KeyRewrite.ViewsDisjointIff` | cpp/src/CodisClient.cpp:926 | two tenants share no key if and only if neither prefix begins the other |
| `KeyRewrite.UnderscoreFreeApart` | cpp/src/CodisClient.cpp:926 | distinct business ids without underscores have disjoint views |
| `KeyRewrite.Isolation` | cpp/src/CodisClient.cpp:909-1030 | over any interleaving with other tenants, a tenant gets the replies and the final view that its own commands give on a private store |
| `CodisClient.SplitInterleave` | cpp/src/CodisClient.cpp:827-904 | hgetall's splitting undoes hmset's interleaving |
| `CodisClient.InterleaveSplitIff` | cpp/src/CodisClient.cpp:900-904 | interleaving undoes splitting if and only if the number of elements is even |
| `CodisClient.DelRemoves` | cpp/src/CodisClient.cpp:81-94 | DEL removes exactly the named keys |
| `CodisClient.DelCounts` | cpp/src/CodisClient.cpp:81-94 | DEL counts the named keys that existed, repeated names once |
| `CodisClient.MsetMeans` | cpp/src/CodisClient.cpp:348-370 | MSET of distinct keys writes each of them and nothing else |
| `CodisClient.LookupMeans` | cpp/src/CodisClient.cpp:206-216 | what is read from a lookup is the string stored, or "" for a missing key or another type |
| `CodisClient.CodisClient.RedisCommand` | cpp/src/CodisClient.cpp:909-1030 | refuses short commands and a missing connection without effect; otherwise a harmless command acts on the tenant's view and on nothing else |
| `CodisClient.CodisClient.Del` | cpp/src/CodisClient.cpp:81-94 | the named keys are gone from the view and the result counts those that existed |
| `CodisClient.CodisClient.Mget` | cpp/src/CodisClient.cpp:186-218 | the values the tenant sees, in order |
| `CodisClient.CodisClient.Mget2Command` | cpp/src/CodisClient.cpp:220-234 | the command built apart from RedisCommand is the one its rewriting gives |
| `CodisClient.CodisClient.MsetCommand` | cpp/src/CodisClient.cpp:350-358 | refuses exactly when a value is too long |
| `CodisClient.CodisClient.Mset` | cpp/src/CodisClient.cpp:348-370 | all or nothing: every key holds its value in the view, or the store is unchanged |
| `CodisClient.CodisClient.HmsetCommand` | cpp/src/CodisClient.cpp:824-833 | fields and values in turn; refuses exactly when a value is too long |
| `CodisClient.CodisClient.Hmset` | cpp/src/CodisClient.cpp:819-838 | sends nothing for lists of different length or empty ones; throws exactly when a value is too long; otherwise acts on the view and answers whether the reply's text was OK; false without a connection |
| `CodisClient.CodisClient.Hgetall` | cpp/src/CodisClient.cpp:894-907 | appends the reply's fields and values to the caller's lists, or leaves them on an error |
| `CodisClient.CodisClient.SplitPairs` | cpp/src/CodisClient.cpp:900-904 | every first and every second element, an odd last one left out |
| `CodisClient.MsetThenMget` | cpp/src/CodisClient.cpp:186-370 | what mset wrote mget reads back |
| `ClientPool.StepValid` | cpp/src/RedisClientPool.cpp:20-135 | every event keeps each connection in one place: queued, lent or freed |
| `ClientPool.StepCounted` | cpp/src/RedisClientPool.cpp:53-99 | the counter goes up for new connections only and down for every return |
| `ClientPool.RunValid` | cpp/src/RedisClientPool.cpp:20-135 | over any run no connection is queued and lent, lent twice, freed twice or forgotten |
| `ClientPool.NewPoolValid` | cpp/src/RedisClientPool.cpp:14-135 | in particular over any run of a new pool, which ends counted as it should |
| `ClientPool.NotLentTwice` | cpp/src/RedisClientPool.cpp:33-63 | until it is returned a lent connection is neither lent again nor freed |
| `ClientPool.StepIsFifo` | cpp/src/RedisClientPool.cpp:38-98 | one event takes from the front and puts to the back; a reuse frees all it takes but the last, which it lends |
| `ClientPool.QueueIsFifo` | cpp/src/RedisClientPool.cpp:38-98 | first in, first out: over any run what left the queue followed by what is in it is what was in it followed by what was returned, in order |
| `ClientPool.UsedIsLentIff` | cpp/src/RedisClientPool.cpp:53-99 | the counter is the number of lent connections if and only if none was lent again, up to the size of size_t |
| `ClientPool.FirstGood` | cpp/src/RedisClientPool.cpp:38-52 | where the skipping ends: everything before is errored |
| `ClientPool.RedisClientPool.RedisFree` | cpp/src/RedisClientPool.cpp:48 | each free is logged, and none is of a connection freed before |
| `ClientPool.RedisClientPool.Create` | cpp/src/RedisClientPool.cpp:109-135 | a new good connection or null; exactly the one that failed is freed |
| `ClientPool.RedisClientPool.BorrowItem` | cpp/src/RedisClientPool.cpp:33-63 | frees exactly the errored front of the queue and lends the first good connection, the rest of the queue staying in order; else frees all and lends a new one, else none; the counter goes up for a new one only; which event of the pool it was is said exactly |
| `ClientPool.RedisClientPool.SkipErrored` | cpp/src/RedisClientPool.cpp:38-52 | the loop takes exactly the errored front and the first good connection off the queue and frees exactly the former, in order |
| `ClientPool.RedisClientPool.ReturnItem` | cpp/src/RedisClientPool.cpp:95-100 | a lent connection goes to the end of the queue, nothing is freed and the counter goes down by one |
| `ClientPool.RedisClientPool.Close` | cpp/src/RedisClientPool.cpp:20-31 | the loop frees exactly the queued connections, in order, and empties the queue |
| `RoundRobin.Fair` | cpp/src/RoundRobinCodisPool.cpp:43-48 | any k consecutive numbers hit each of n residues floor(k/n) or ceil(k/n) times |
| `RoundRobin.PicksAgreeIff` | python/BfdCodis.py:58-69 | from any index, in range or not, the Python and the C++ counter pick the same for ever if and only if they pick the same once |
| `RoundRobin.RoundRobinCodisPool.constructor` | cpp/src/RoundRobinCodisPool.cpp:50-62 | a pool starts with one proxy per discovered address and port, in order |
| `RoundRobin.RoundRobinCodisPool.GetProxy` | cpp/src/RoundRobinCodisPool.cpp:43-48 | the choice is proxy (counter + 1) mod size, never a deleted one, and the counter goes up by one |
| `RoundRobin.RoundRobinCodisPool.MakeProxies` | cpp/src/RoundRobinCodisPool.cpp:121-126 | one new proxy per address, in order |
| `RoundRobin.RoundRobinCodisPool.InitProxyConns` | cpp/src/RoundRobinCodisPool.cpp:119-140 | one new proxy per address and port, in order, replaces the old ones, which are deleted once each, and the counter goes on |
| `RoundRobin.RoundRobinCodisPool.DeleteAll` | cpp/src/RoundRobinCodisPool.cpp:132-139 | the loop deletes every old proxy, none that was deleted before |
| `RoundRobin.RoundRobinCodisPool.GetProxies` | cpp/src/RoundRobinCodisPool.cpp:43-48 | k calls in a row give each proxy floor(k/n) or ceil(k/n) turns |
| `RoundRobin.BfdCodis.InitFromZK` | python/BfdCodis.py:33-56 | the pool holds the connections made, in order, and the index stays |
| `RoundRobin.BfdCodis.GetProxy` | python/BfdCodis.py:58-69 | the index goes up by one, or to 0 past the end; the connection is the one at the index, in the pool whatever happened to the pool's size; none exactly when it is empty |
| `RoundRobin.GetProxyInfos` | cpp/src/RoundRobinCodisPool.cpp:64-117 | the loop keeps exactly the online nodes with an address of two parts, in order |
| `RoundRobin.NodesInOrder` | cpp/src/RoundRobinCodisPool.cpp:78-114 | each node adds its entry at the end if it is online with an address of at least two parts, and nothing otherwise |
| `RoundRobin.FoundIffOffered` | cpp/src/RoundRobinCodisPool.cpp:95-107 | an entry is found if and only if some online node offers it |
| `RoundRobin.PublishedAreFoundIff` | cpp/src/RoundRobinCodisPool.cpp:98-108 | proxies that publish their id as address are found with address and port if and only if no address has a colon |
| `TextForms.NumberRoundTrip` | cpp/include/Utils.h:18-28 | parsing what int2string wrote gives the number back |
| `TextForms.DecimalForm` | cpp/include/Utils.h:18-23 | int2string writes decimal digits without leading zeros, after a sign for negative numbers |
| `TextForms.ParsesFront` | cpp/include/Utils.h:25-28 | string2int reads a number at the front, after a sign of either kind, and nothing behind it |
| `TextForms.SkipsSpace` | cpp/include/Utils.h:25-28 | it skips white space in front, and gives 0 where no number stands |
| `TextForms.SplitLoop` | cpp/include/Utils.h:30-41 | the getline loop yields the parts of the text |
| `TextForms.SplitJoinIff` | cpp/include/Utils.h:30-41 | splitting undoes joining delimiter-free parts if and only if the last part is not empty |
| `TextForms.JoinSplitIff` | cpp/include/Utils.h:30-41 | joining undoes splitting if and only if the text does not end with the delimiter |
| `TextForms.IdRoundTripIff` | cpp/src/RedisClientPool.cpp:266-269 | address and port come back from the id if and only if the address has no colon |
| `Backoff.BoundIsPositive` | java/src/main/java/com/wandoulabs/jodis/BoundedExponentialBackoffRetryUntilElapsed.java:72-73 | the bound of the random number is positive for every count from 0 to the largest int, where the sum wraps |
| `Backoff.RandomBoundMeans` | java/src/main/java/com/wandoulabs/jodis/BoundedExponentialBackoffRetryUntilElapsed.java:72 | the bound is 2 for the first retry, doubles up to 2^30, stays there, and falls to 1 where the count overflows |
| `Backoff.Create` | java/src/main/java/com/wandoulabs/jodis/BoundedExponentialBackoffRetryUntilElapsed.java:55-64 | a negative limit becomes the largest long, that is no limit; the rest is kept |
| `Backoff.NoOverflow` | java/src/main/java/com/wandoulabs/jodis/BoundedExponentialBackoffRetryUntilElapsed.java:69-73 | the product never leaves the range of a long |
| `Backoff.DelayBoundedIff` | java/src/main/java/com/wandoulabs/jodis/BoundedExponentialBackoffRetryUntilElapsed.java:66-74 | every delay lies between min(base, max) and max if and only if the base is not negative, the factor is at most 1, or the cap is below every product |
| `Backoff.RetryIff` | java/src/main/java/com/wandoulabs/jodis/BoundedExponentialBackoffRetryUntilElapsed.java:77-90 | a retry is allowed if and only if time is left and the sleep is not interrupted; the sleep is the least of the time left, the cap, and the base times the random factor |
| `Backoff.TotalSleepBounded` | java/src/main/java/com/wandoulabs/jodis/BoundedExponentialBackoffRetryUntilElapsed.java:77-90 | over any run of allowed retries the sleeps add up to at most the limit |
| `Backoff.ElapsedGrows` | java/src/main/java/com/wandoulabs/jodis/BoundedExponentialBackoffRetryUntilElapsed.java:77-90 | before the k-th retry k full delays have passed: only the last sleep is cut |
| `Backoff.RetriesBounded` | java/src/main/java/com/wandoulabs/jodis/BoundedExponentialBackoffRetryUntilElapsed.java:77-90 | at most ceil(limit / min(base, max)) retries are allowed for positive base and cap |

## Left out

- Nested calls of `aeProcessEvents` from a callback, and timer finalizers that use the loop: callbacks are scripts of create, delete and stop.
- `aeMain`, `aeWait`, `aeGetFileEvents`, `aeSetBeforeSleepProc` and the kqueue and evport backends: forwarding, or not part of this repository.
- Event masks with other bits, empty masks and negative descriptors: outside the contract of ae.h.
- FD_SETSIZE: select's descriptor sets are unbounded in the model.
- FileTable.FileTable.ApiDelEvent: the kernel does not refuse a MOD or DEL; the code ignores the result, and a refusal would leave the kernel's interest set behind the masks.
- FileTable.FileTable.DeleteFileEvent: the same.
- Allocation failures other than in `aeCreateTimeEvent`, and the release of the loop.
- TimerList.TimerQueue.CreateTimeEvent: ids are unbounded, not 64-bit.
- EventLoop.EventLoop.ProcessTimeEvents: assumes that a rescheduled timer is put off beyond the span of clock readings of the pass; with a clock that moves by more than the delay the code may fire a timer again in one pass.
- EventLoop.EventLoop.ProcessEvents: the kernel's answer is an input, so that it slept its time out when it reports nothing is a premise (`PollTimeout.SleptOut`), not a consequence.
- HiredisAe.RedisAeEvents.Cleanup: leaves out the final free.
- Reading and writing on a connection (`redisAsyncHandleRead`, `redisAsyncHandleWrite`): hiredis is not part of this model.
- The templated `operator=` between different pointer types, which lacks the test for self-assignment, and the mutex of linked_ptr.
- An out-of-memory handler that returns: the default one ends the program.
- zmalloc builds on tcmalloc or jemalloc, `zstrdup`, thread safety, resident set size and fragmentation.
- Multi-key commands other than DEL, MGET and MSET: a command's one key is taken to come first, which is all `RedisCommand` prefixes.
- CodisClient.CodisClient.RedisCommand: leaves out reconnecting and sending again after a lost reply, and the timeout: a command either gets a connection and a reply or does not, and the two errors for the latter count as one.
- The replies `mget2` delivers through its callback, and the asynchronous pool.
- The recursive construction of `Reply` from hiredis replies: replies are a datatype, and errors inside arrays keep their text.
- The one-line wrappers of `CodisClient.cpp`, `BfdCodis.cpp` and `BfdCodis.py`: forwarding.
- ClientPool.RedisClientPool.Create: a pool with a password that gets no context at all passes a null pointer on, which is undefined; the precondition excludes it.
- ClientPool.RedisClientPool.ReturnItem: returning a connection that is not lent is excluded; the code would queue it twice.
- RoundRobin.RoundRobinCodisPool.GetProxy: the counter's overflow after 2^31 calls is undefined in C++ and excluded.
- RoundRobin.RoundRobinCodisPool.InitProxyConns: an empty list is excluded; the caller ends the program before.
- ZooKeeper sessions and watches, JSON parsing and logging: a node is garbage or an object with the two members that matter, absent when they are not strings.
- RoundRobin.BfdCodis.InitFromZK: takes the connections it made as given, be they all or those made before an exception.
- Deleting old proxies while other threads still use them, and all other interleavings inside a mutex.
- TextForms.NumberRoundTrip: numbers are unbounded; `atoi` on text beyond an int is undefined in C and never arises from int2string.
- `TimeUtil`: reads clocks only.
