/** The scheduler's state as a value, and each of its operations as a
    function from the state before to the state after.  The public methods
    of the class in schedule.dfy, and its create helpers, are proved to end
    in the state these functions give; the
    lemmas in properties.dfy prove what the scheduler promises about them.

    The context switches (getcontext, makecontext, swapcontext) are not
    part of the state: an operation describes everything the scheduler does
    to its own data before control leaves for the other context. */
module ScheduleModel {
  import opened CoroutineStatus

  /** Size in bytes of the shared stack every coroutine runs on. */
  const STACK_SIZE: nat := 1024 * 1024
  /** Number of slots a fresh scheduler starts with. */
  const DEFAULT_COROUTINE: nat := 16

  datatype Option<T> = None | Some(value: T)

  /** One coroutine record.  `payload` stands for the entry function and the
      user-data pointer, which the scheduler only stores.  `buf` is the
      private stack buffer: exactly `cap` bytes, of which the first `size`
      hold the saved stack image. */
  datatype Record = Record(payload: int, cap: nat, size: nat, status: Status, buf: seq<bv8>)

  /** The scheduler: the shared stack, the live count `nco`, the slot
      capacity `cap`, the running id (-1 for none), and the slots, each
      empty (a null pointer) or holding a record. */
  datatype State = State(stack: seq<bv8>, nco: int, cap: int, runningid: int, co: seq<Option<Record>>)

  /** The assertion an operation trips. */
  datatype Fault =
    | NotIdle       // resume while a coroutine is running
    | BadId         // resume of an id outside [0, cap)
    | BadStatus     // resume of a record that is neither READY nor SUSPEND
    | NoFreeSlot    // create found every slot occupied
    | NotRunning    // yield, or an entry returning, with no coroutine running
    | StackOverflow // the used stack extent exceeds STACK_SIZE
    | OutsideStack  // entry code storing outside the shared stack

  datatype Result<T> = Ok(value: T) | Abort(fault: Fault)

  /** What create produces: the new state and the id it assigned. */
  datatype Created = Created(state: State, id: int)

  /** The record create allocates: READY, no buffer. */
  function NewRecord(payload: int): Record {
    Record(payload, 0, 0, Ready, [])
  }

  /** A slot counts towards `nco` when it holds a record that is not DEAD. */
  predicate IsLive(o: Option<Record>) {
    o.Some? && o.value.status != Dead
  }

  predicate IsRunning(o: Option<Record>) {
    o.Some? && o.value.status == Running
  }

  /** The number of live slots. */
  function LiveCount(co: seq<Option<Record>>): (n: nat)
    ensures n <= |co|
  {
    if co == [] then 0
    else LiveCount(co[..|co| - 1]) + (if IsLive(co[|co| - 1]) then 1 else 0)
  }

  lemma {:induction false} LiveCountEmpty(n: nat)
    ensures LiveCount(seq(n, _ => None)) == 0
  {
    if n > 0 {
      var e: seq<Option<Record>> := seq(n, _ => None);
      assert e[..n - 1] == seq(n - 1, _ => None);
      LiveCountEmpty(n - 1);
    }
  }

  /** A record's buffer holds `cap` bytes, the saved image fits in it and in
      the shared stack, and a coroutine that never ran has no buffer. */
  predicate RecordOk(r: Record) {
    r.size <= r.cap == |r.buf| && r.size <= STACK_SIZE &&
    (r.status == Ready ==> r.cap == 0)
  }

  /** The scheduler invariant: the shared stack has its fixed size, the slot
      vector has `cap` entries, exactly the slot `runningid` is RUNNING (so
      -1 means none is), and `nco` counts the live slots. */
  predicate Inv(s: State) {
    |s.stack| == STACK_SIZE &&
    DEFAULT_COROUTINE <= s.cap == |s.co| &&
    -1 <= s.runningid < s.cap &&
    (forall i :: 0 <= i < |s.co| ==> (IsRunning(s.co[i]) <==> i == s.runningid)) &&
    (forall i :: 0 <= i < |s.co| && s.co[i].Some? ==> RecordOk(s.co[i].value)) &&
    s.nco == LiveCount(s.co)
  }

  /** The constructed scheduler; the shared stack's initial bytes are
      whatever the storage held, so they are a parameter. */
  function Init(stack0: seq<bv8>): (s: State)
    requires |stack0| == STACK_SIZE
    ensures Inv(s)
  {
    LiveCountEmpty(DEFAULT_COROUTINE);
    State(stack0, 0, DEFAULT_COROUTINE, -1, seq(DEFAULT_COROUTINE, _ => None))
  }

  /** `vector::resize`: truncate to `n` slots, or extend with empty ones. */
  function Resize(co: seq<Option<Record>>, n: nat): (r: seq<Option<Record>>)
    ensures |r| == n
    ensures forall i :: 0 <= i < n ==> r[i] == if i < |co| then co[i] else None
  {
    if n <= |co| then co[..n] else co + seq(n - |co|, _ => None)
  }

  /** The first step of create: double the capacity when the live count has
      reached it. */
  function Grow(s: State): (g: State)
    requires 0 <= s.cap == |s.co|
    ensures g.cap == if s.nco >= s.cap then 2 * s.cap else s.cap
    ensures |g.co| == g.cap && g.co[..|s.co|] == s.co
    ensures forall i :: |s.co| <= i < |g.co| ==> g.co[i].None?
    ensures g.stack == s.stack && g.nco == s.nco && g.runningid == s.runningid
  {
    if s.nco >= s.cap then s.(cap := 2 * s.cap, co := Resize(s.co, 2 * s.cap)) else s
  }

  /** The slot probed at step `i` of create's search: `(i + nco) % cap`.
      Both operands are non-negative where it is used, so the truncating
      remainder of the source and Dafny's agree. */
  function RingId(nco: int, cap: int, i: int): int
    requires cap > 0
  {
    (i + nco) % cap
  }

  /** Slot `RingId(nco, |co|, k)` is empty and every slot probed before it,
      from step `i` on, is occupied. */
  predicate FirstFreeFrom(co: seq<Option<Record>>, nco: int, i: nat, k: nat)
    requires 0 < |co|
  {
    co[RingId(nco, |co|, k)].None? &&
    forall j :: i <= j < k ==> co[RingId(nco, |co|, j)].Some?
  }

  /** Create's search loop from step `i`: the first empty slot in the ring
      order that starts at `nco % cap`, or None when every remaining probe
      hits an occupied slot. */
  function RingSearch(co: seq<Option<Record>>, nco: nat, i: nat): (r: Option<nat>)
    requires 0 < |co| && i <= |co|
    decreases |co| - i
    ensures r.Some? ==>
              r.value < |co| &&
              exists k :: i <= k < |co| && r.value == RingId(nco, |co|, k) && FirstFreeFrom(co, nco, i, k)
    ensures r.None? <==> forall j :: i <= j < |co| ==> co[RingId(nco, |co|, j)].Some?
  {
    if i == |co| then None
    else if co[RingId(nco, |co|, i)].None? then Some(RingId(nco, |co|, i))
    else RingSearch(co, nco, i + 1)
  }

  /** create: grow if needed, then put a fresh READY record into the first
      empty slot of the ring search and count it; NoFreeSlot when there is
      none. */
  function CreateOp(s: State, payload: int): Result<Created>
    requires Inv(s)
  {
    var g := Grow(s);
    match RingSearch(g.co, g.nco, 0)
    case None => Abort(NoFreeSlot)
    case Some(id) => Ok(Created(g.(co := g.co[id := Some(NewRecord(payload))], nco := g.nco + 1), id))
  }

  /** The shared stack after `size` saved bytes are copied back to its top:
      `memcpy(stack_ + STACK_SIZE - size, buf, size)`. */
  function Restore(stack: seq<bv8>, buf: seq<bv8>, size: nat): (t: seq<bv8>)
    requires |stack| == STACK_SIZE && size <= |buf| && size <= STACK_SIZE
  {
    stack[..STACK_SIZE - size] + buf[..size]
  }

  /** resume: a null slot is left alone; READY and SUSPEND records become
      RUNNING and their id the running one, a SUSPEND record first copying
      its saved image back onto the shared stack; anything else trips the
      assertion of the `default` case. */
  function ResumeOp(s: State, id: int): Result<State>
    requires Inv(s)
  {
    if s.runningid != -1 then Abort(NotIdle)
    else if !(0 <= id < s.cap) then Abort(BadId)
    else match s.co[id]
      case None => Ok(s)
      case Some(r) =>
        if r.status == Ready then
          Ok(s.(runningid := id, co := s.co[id := Some(r.(status := Running))]))
        else if r.status == Suspend then
          Ok(s.(stack := Restore(s.stack, r.buf, r.size), runningid := id,
                co := s.co[id := Some(r.(status := Running))]))
        else Abort(BadStatus)
  }

  /** save_stack: reallocate the buffer when it is smaller than the extent,
      then copy the top `extent` bytes of the shared stack into its front. */
  function Save(r: Record, stack: seq<bv8>, extent: nat): Record
    requires |stack| == STACK_SIZE && extent <= STACK_SIZE && r.cap == |r.buf|
  {
    var buf := if r.cap < extent then seq(extent, _ => 0) else r.buf;
    r.(cap := if r.cap < extent then extent else r.cap, size := extent,
       buf := stack[STACK_SIZE - extent..] + buf[extent..])
  }

  /** yield: save the running coroutine's stack image, mark it SUSPEND and
      clear the running id. */
  function YieldOp(s: State, extent: nat): Result<State>
    requires Inv(s)
  {
    if s.runningid < 0 then Abort(NotRunning)
    else if extent > STACK_SIZE then Abort(StackOverflow)
    else
      var r := s.co[s.runningid].value;
      Ok(s.(runningid := -1, co := s.co[s.runningid := Some(Save(r, s.stack, extent).(status := Suspend))]))
  }

  /** The tail of mainfunc, after the entry function returned: the running
      record becomes DEAD but stays in its slot, `nco` drops, and no
      coroutine runs. */
  function FinishOp(s: State): State
    requires Inv(s) && s.runningid >= 0
  {
    var r := s.co[s.runningid].value;
    s.(co := s.co[s.runningid := Some(r.(status := Dead))], nco := s.nco - 1, runningid := -1)
  }

  /** status: DEAD for an empty slot, the record's state otherwise. */
  function StatusOf(s: State, id: int): Status
    requires 0 <= id < |s.co|
  {
    match s.co[id]
    case None => Dead
    case Some(r) => r.status
  }
}
