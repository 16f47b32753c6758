# coroutine_cpp scheduler in Dafny

This project models the `Schedule` class of coroutine_cpp, a stackful coroutine scheduler in which every coroutine runs on one shared 1 MiB stack. A `Schedule` keeps:

- a vector of slots, each either null or owning a coroutine record;
- `nco_`, the number of live coroutines;
- `cap_`, the slot capacity;
- `runningid_`, the id of the running coroutine, or -1 when none runs.

Its operations are:

- `create` doubles the vector when `nco_` has reached `cap_` and then places a fresh READY record in the first null slot of a ring search.
- `resume` makes a READY or SUSPEND coroutine the running one. For a SUSPEND coroutine it first copies the saved stack image back to the top of the shared stack.
- `yield` (through `save_stack`) copies the top of the shared stack into the running coroutine's private buffer and marks it SUSPEND.
- The tail of `mainfunc` marks a coroutine whose entry function returned as DEAD and decrements `nco_`.
- `status` and `runningid` are read-only queries.

The project has four files:

- `status.dfy` (module `CoroutineStatus`): the four coroutine states and their integer codes.
- `model.dfy` (module `ScheduleModel`): the scheduler's state as a value, with each operation as a function from the old state.
  - An operation whose source trips an `assert` returns `Abort` with the reason, except `StatusOf`, which requires the id in range.
  - `Inv` is the scheduler invariant. It says:
    - exactly the slot `runningid` is RUNNING;
    - `nco` counts the slots holding a non-DEAD record;
    - every buffer has `cap` bytes, the saved image's `size` fits in it and in the shared stack, and a READY record has no buffer;
    - the vector has `cap` slots.
- `properties.dfy` (module `ScheduleProperties`): what the scheduler promises, proved about those functions. This covers:
  - each operation's outcome and error cases, and each operation keeping `Inv`;
  - event traces (`Run`);
  - the shared-stack round trip;
  - DEAD being final;
  - a concrete trace that reaches create's `assert(false)`.
- `schedule.dfy` (module `Scheduler`): the objects the program updates in place.
  - Class `Coroutine` has mutable `cap`, `size`, `status` and `stack` fields.
  - Class `Schedule` has the shared stack as an `array<bv8>`, the three counters, and the slot vector as a `seq<Coroutine?>`.
  - `Create`, `Resume`, `Yield` and `Finish`, and the helpers `GrowSlots`, `Place` and `Install`, are proved to change the heap exactly as the matching model function says, and to keep `Valid()`. The smaller helpers `FindSlot`, `MakeRunning`, `RestoreStack` and `SaveStack` each state their own effect on the slots, the shared stack or one record.
  - `Valid()` is the invariant plus the `unique_ptr` ownership rule: no record sits in two slots.

`resume` returns at once for a null slot (coroutine_cpp.cpp:81). A non-null record that is DEAD falls into `default: assert(false)` (coroutine_cpp.cpp:105-106). The model does the same: `ResumeOp` returns `Ok` with the state unchanged for a null slot and `Abort(BadStatus)` for a DEAD record, and `Scheduler.Schedule.Resume` requires the record not to be DEAD.

The code also makes create's "unreachable" `assert(false)` reachable, and the model keeps that behaviour. A DEAD record keeps its slot, yet `nco_` is decremented. So after sixteen creates and one finished coroutine, the next create neither grows nor finds a null slot. `ScheduleProperties.CreateFaultReachable` proves this trace. `Scheduler.Schedule.Create` returns the code's own `-1` in that case.

## Model

| member | source | states |
|---|---|---|
| CoroutineStatus.Code | coroutine_cpp.h:9-14 | each state's code is in 0..3 and decodes back to the same state (DEAD 0, READY 1, RUNNING 2, SUSPEND 3) |
| CoroutineStatus.CodeRoundTrip | coroutine_cpp.h:50-53 | every code 0..3 names exactly one state, so the codes and the states are in bijection |
| ScheduleModel.Init | coroutine_cpp.cpp:29-32 | the constructed scheduler satisfies the scheduler invariant |
| ScheduleProperties.InitialState | coroutine_cpp.cpp:29-32 | construction gives `nco == 0`, `cap == 16`, `runningid == -1` and 16 null slots, and keeps the stack bytes |
| Scheduler.Schedule.constructor | coroutine_cpp.cpp:29-32 | the new object is valid, owns a fresh shared stack of STACK_SIZE bytes, and its state is the initial state |
| Scheduler.Coroutine.constructor | coroutine_cpp.cpp:20-21 | a new record is READY with capacity 0, size 0 and an empty buffer |
| ScheduleModel.Resize | coroutine_cpp.cpp:47 | `vector::resize` gives exactly `n` slots; the old ones are kept below the old length and the new ones are null |
| ScheduleModel.Grow | coroutine_cpp.cpp:45-48 | the capacity doubles exactly when `nco >= cap`; every existing slot is unchanged, the added slots are null, and the other fields are untouched |
| ScheduleProperties.GrowKeepsLiveCount | coroutine_cpp.cpp:45-48 | growing adds no live slot, so `nco` still counts the live slots |
| ScheduleProperties.GrowPreservesInv | coroutine_cpp.cpp:45-48 | growing keeps the scheduler invariant |
| Scheduler.Schedule.GrowSlots | coroutine_cpp.cpp:45-48 | the object's state becomes the grown state, the old slots keep their records, the new slots are null, and validity is kept |
| ScheduleModel.RingSearch | coroutine_cpp.cpp:51-58 | a found slot is `(k + nco) % cap` for the first probe `k` that hits a null slot, with every earlier probe hitting a record; nothing is found exactly when every probe hits a record |
| ScheduleProperties.RingSearchNoneIffFull | coroutine_cpp.cpp:51-58 | the ring search misses exactly when every slot is non-null, because the `cap` probes visit every slot |
| Scheduler.Schedule.FindSlot | coroutine_cpp.cpp:51-58 | the probe loop returns the slot the ring search finds, which is null, or -1 exactly when the search misses |
| ScheduleProperties.CreatePlacesFirstFree | coroutine_cpp.cpp:40-62 | create fails only with NoFreeSlot. On success: the id is the first null slot in ring order after growth; that slot gets a fresh READY record; `nco` rises by one; every other slot and field is as after growth |
| ScheduleProperties.CreatePreservesInv | coroutine_cpp.cpp:40-57 | a successful create keeps the scheduler invariant |
| ScheduleProperties.CreateFaultCondition | coroutine_cpp.cpp:45-62 | create fails exactly when `nco < cap` and every slot holds a record, and then some slot holds a DEAD record |
| Scheduler.Schedule.Create | coroutine_cpp.cpp:40-63 | returns the id `CreateOp` assigns and reaches its state, with a fresh record in that slot and every other slot's record kept; returns -1, with nothing changed, exactly in the `NoFreeSlot` case |
| Scheduler.Schedule.Place | coroutine_cpp.cpp:50-62 | after growth, puts the record into the first null slot of the ring search, completing create, or returns -1, changing nothing, when there is none |
| Scheduler.Schedule.Install | coroutine_cpp.cpp:53-56 | moving the record into the found slot and incrementing `nco` yields `CreateOp`'s state and keeps validity |
| ScheduleProperties.FillStep | coroutine_cpp.cpp:51-56 | on a fresh scheduler, the k-th create goes to slot k-1 |
| ScheduleProperties.FillFromInit | coroutine_cpp.cpp:51-56 | k <= 16 creates on a fresh scheduler fill slots 0..k-1 in order |
| ScheduleProperties.FirstRunsToEnd | coroutine_cpp.cpp:71-73 | with 16 records, resuming slot 0 and finishing it leaves a DEAD record in slot 0 and `nco == 15` |
| ScheduleProperties.DrainedCreateFaults | coroutine_cpp.cpp:45-61 | in that state, create neither grows nor finds a null slot |
| ScheduleProperties.CreateFaultReachable | coroutine_cpp.cpp:61 | the run of 16 creates, a resume, a finish and one more create ends at create's `assert(false)` |
| ScheduleProperties.ResumeFaults | coroutine_cpp.cpp:77-107 | resume faults when a coroutine runs or the id is out of range; it is a no-op on a null slot; on a record it faults exactly when the record is DEAD |
| ScheduleProperties.ResumeRuns | coroutine_cpp.cpp:84-103 | resuming READY or SUSPEND makes the record RUNNING and its id the running id, leaving the other slots, `nco` and `cap` unchanged. READY leaves the stack alone. SUSPEND puts the saved `size` bytes at the stack's top and keeps the bytes below |
| ScheduleProperties.ResumePreservesInv | coroutine_cpp.cpp:84-103 | resume keeps the scheduler invariant |
| Scheduler.Schedule.Resume | coroutine_cpp.cpp:77-108 | the object's new state is `ResumeOp`'s, under the source's assertions as preconditions; the slots keep their records |
| Scheduler.Schedule.MakeRunning | coroutine_cpp.cpp:100-101 | the id becomes the running id and only that slot's record changes, to RUNNING |
| Scheduler.Schedule.RestoreStack | coroutine_cpp.cpp:99 | the shared stack becomes the image copied to its top `size` bytes |
| ScheduleProperties.SaveCopiesTop | coroutine_cpp.cpp:136-150 | save_stack sets the capacity to max(old capacity, extent), which never shrinks; the size becomes the extent, and the buffer's front holds the top `extent` bytes of the shared stack |
| Scheduler.Schedule.SaveStack | coroutine_cpp.cpp:136-150 | the record after the method is the `Save` of the record before |
| ScheduleProperties.YieldFaults | coroutine_cpp.cpp:111-139 | yield faults when no coroutine runs, and when the extent exceeds STACK_SIZE |
| ScheduleProperties.YieldSuspends | coroutine_cpp.cpp:111-117 | yield saves the top `extent` bytes into the running record's buffer and marks it SUSPEND; no coroutine runs after it, and the other slots, the stack and the counters are unchanged |
| ScheduleProperties.YieldPreservesInv | coroutine_cpp.cpp:111-117 | yield keeps the scheduler invariant |
| Scheduler.Schedule.Yield | coroutine_cpp.cpp:111-119 | the object's new state is `YieldOp`'s, and the slots keep their records |
| ScheduleProperties.FinishKills | coroutine_cpp.cpp:71-73 | the finished record stays in its slot, unchanged except that its status is DEAD; `nco` drops by one, no coroutine runs, and the other slots, the stack and `cap` are unchanged |
| ScheduleProperties.FinishPreservesInv | coroutine_cpp.cpp:71-73 | finishing keeps the scheduler invariant |
| Scheduler.Schedule.Finish | coroutine_cpp.cpp:68-73 | the object's new state is `FinishOp`'s, and the slots keep their records |
| ScheduleProperties.RunningIdMeaning | coroutine_cpp.h:58-61 | `runningid` is -1 exactly when no slot reports RUNNING, and otherwise names the one slot that does |
| Scheduler.Schedule.StatusCode | coroutine_cpp.cpp:122-128 | the result is a code in 0..3 that decodes to DEAD for a null slot and otherwise to the record's state; it is the RUNNING code exactly for the running id |
| Scheduler.Schedule.RunningId | coroutine_cpp.cpp:131-133 | returns -1 exactly when no slot reports the RUNNING code, and otherwise an id within the slot vector whose status code is RUNNING's; no other result is possible |
| ScheduleProperties.ApplyPreservesInv | coroutine_cpp.cpp:40-150 | every event keeps the scheduler invariant: create, resume, yield, finish, or a store by entry code |
| ScheduleProperties.Run | coroutine_cpp.cpp:40-150 | every reachable state of a run from a valid state satisfies the invariant |
| ScheduleProperties.ApplyKeepsParked | coroutine_cpp.cpp:84-107 | no event changes a record that is not running (READY, SUSPEND or DEAD) except a resume of its id, and no event changes a DEAD record |
| ScheduleProperties.RunKeepsParked | coroutine_cpp.cpp:84-119 | the same holds over a whole run that contains no resume of that id |
| ScheduleProperties.YieldResumeRoundTrip | coroutine_cpp.cpp:98-119 | a later resume restores exactly the top `extent` bytes present at yield time and keeps the bytes below. In between, others may run, yield, finish, be created or overwrite the stack, as long as the coroutine is not resumed |
| ScheduleProperties.DeadIsAbsorbing | coroutine_cpp.cpp:105-106 | resuming a DEAD record faults, and no run makes a DEAD record anything but DEAD |
| Scheduler.DistinctGrow | coroutine_cpp.h:74 | appending null slots keeps every record owned by at most one slot |
| Scheduler.DistinctPut | coroutine_cpp.h:74 | moving a record that no slot holds into a slot keeps single ownership |
| Scheduler.DistinctOthers | coroutine_cpp.h:74 | under single ownership, a slot's record is in no other slot |

## Left out

- The context switches (`getcontext`, `makecontext`, `swapcontext`, coroutine_cpp.cpp:86-95, 102, 118) are OS context switching. Each operation models what the scheduler does to its own data before the switch. The entry function returning is the separate `Finish` operation.
- Splitting the `this` pointer into two 32-bit halves and casting it back in `mainfunc` (coroutine_cpp.cpp:65-67, 83, 93) is not modelled. It is ABI plumbing that changes no scheduler state.
- The entry function, its call and the user-data pointer (coroutine_cpp.cpp:70) are one opaque integer `payload`. The scheduler only stores them.
  - In event traces, the entry code's effect on the scheduler is a `Store` event that writes one byte of the shared stack, and a call of create, yield or finish.
- Scheduler.Schedule.Finish: `mainfunc` binds `auto& C = S->co_[id]`, a reference into the vector, before the entry function runs (coroutine_cpp.cpp:68-69). If the entry function calls `create` and that create grows the vector (coroutine_cpp.cpp:47), the reference dangles, and the write `C->status = COROUTINE_DEAD` at coroutine_cpp.cpp:71 is undefined behaviour. An example: create one coroutine, resume it, and have its entry create 16 more before returning. The model does not capture this. `Finish`, `FinishOp` and the `Finish` event read slot `runningid` when the entry returns, which gives a defined result. Event traces allow a `Create` while a coroutine runs.
- Scheduler.Schedule.Yield: the extent `top - &dummy` (coroutine_cpp.cpp:138-139) is a caller-supplied `extent` parameter, because stack addresses are not modelled.
- `new[]`/`delete[]` of the private buffer is a sequence of `cap` bytes. A freshly allocated buffer is zero-filled; in the source its bytes are uninitialised, but the copy that follows overwrites all of them.
- The shared stack's initial contents are a parameter of `Init`, since uninitialised storage has no defined value.
- Scheduler.Schedule.Create: the doubling `cap_ *= 2` is modelled on unbounded integers, so the 32-bit `int` overflow after 2^30 slots is not captured.
- Scheduler.Schedule.Create: the loop and the move into the slot are split into the helper methods `FindSlot` and `Install`. The record is allocated before the growth step, as in the source.
- Scheduler.Schedule.Resume, Scheduler.Schedule.Yield and Scheduler.Schedule.StatusCode: the source's `assert`s are preconditions. The model functions `ResumeOp` and `YieldOp` return the corresponding fault instead.
- The destructor (coroutine_cpp.cpp:34-36) is empty. Freeing the records owned through `unique_ptr` is not modelled, because nothing observes it.
- main.cpp is a demo driver that prints to the console. It is client code, not part of this model.
