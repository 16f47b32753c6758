/** The scheduler as the objects the program updates in place: a
    `Coroutine` record per created coroutine and the `Schedule` that owns
    the shared stack array and the slot vector.  The public operations
    (Create, Resume, Yield, Finish) and the create helpers GrowSlots, Place
    and Install are proved to change the state exactly as the matching
    function of ScheduleModel says, and to keep the scheduler invariant;
    the smaller helpers FindSlot, MakeRunning, RestoreStack and SaveStack
    each state their own effect on the slots, the shared stack or one
    record. */
module Scheduler {
  import opened CoroutineStatus
  import opened ScheduleModel
  import opened ScheduleProperties

  /** A coroutine record.  The entry function and the user data are stored
      but never inspected, so one opaque token, `payload`, stands for both;
      the execution context is left out.  `stack` is the private buffer,
      reduced to its `cap` bytes. */
  class Coroutine {
    const payload: int
    var cap: nat
    var size: nat
    var status: Status
    var stack: seq<bv8>

    /** A record as create allocates it: READY, capacity and size 0, no buffer. */
    constructor (payload: int)
      ensures View() == NewRecord(payload)
    {
      this.payload := payload;
      cap, size, status, stack := 0, 0, Ready, [];
    }

    /** The record's value. */
    function View(): Record
      reads this
    {
      Record(payload, cap, size, status, stack)
    }
  }

  /** The slot vector as values: an empty slot for a null pointer, the
      record's value otherwise. */
  function Views(cs: seq<Coroutine?>): (r: seq<Option<Record>>)
    reads cs
    ensures |r| == |cs|
    ensures forall i :: 0 <= i < |cs| ==> r[i] == if cs[i] == null then None else Some(cs[i].View())
  {
    seq(|cs|, i reads cs requires 0 <= i < |cs| => if cs[i] == null then None else Some(cs[i].View()))
  }

  /** `cs` resized to `n >= |cs|` slots, the added ones null. */
  function Padded(cs: seq<Coroutine?>, n: nat): (r: seq<Coroutine?>)
    requires |cs| <= n
    ensures |r| == n && r[..|cs|] == cs
    ensures forall i :: |cs| <= i < n ==> r[i] == null
  {
    cs + seq(n - |cs|, _ => null)
  }

  /** Slots `i` and `j` do not share a record. */
  ghost predicate Apart(cs: seq<Coroutine?>, i: int, j: int) {
    0 <= i < j < |cs| && cs[i] != null ==> cs[i] != cs[j]
  }

  /** No two slots hold the same record: each `unique_ptr` owns its own.
      The trigger keeps the pairwise fact from being instantiated except
      where a lemma below asks for it. */
  ghost predicate Distinct(cs: seq<Coroutine?>) {
    forall i, j {:trigger Apart(cs, i, j)} :: Apart(cs, i, j)
  }

  /** The record in slot `id` is in no other slot. */
  lemma DistinctOthers(cs: seq<Coroutine?>, id: int)
    requires Distinct(cs) && 0 <= id < |cs|
    ensures forall i :: 0 <= i < |cs| && i != id && cs[id] != null ==> cs[i] != cs[id]
  {
    forall i | 0 <= i < |cs| && i != id && cs[id] != null
      ensures cs[i] != cs[id]
    {
      if i < id {
        assert Apart(cs, i, id);
      } else {
        assert Apart(cs, id, i);
      }
    }
  }

  /** Extending the vector with null slots keeps the records apart. */
  lemma DistinctGrow(cs: seq<Coroutine?>, ext: seq<Coroutine?>)
    requires Distinct(cs)
    requires forall i :: 0 <= i < |ext| ==> ext[i] == null
    ensures Distinct(cs + ext)
  {
    var ds := cs + ext;
    forall i, j ensures Apart(ds, i, j) {
      if 0 <= i < j < |cs| {
        assert Apart(cs, i, j);
      }
    }
  }

  /** Moving a record no slot holds into a slot keeps the records apart. */
  lemma DistinctPut(cs: seq<Coroutine?>, k: int, c: Coroutine)
    requires Distinct(cs) && 0 <= k < |cs| && c !in cs
    ensures Distinct(cs[k := c])
  {
    var ds := cs[k := c];
    forall i, j ensures Apart(ds, i, j) {
      if 0 <= i < j < |cs| && i != k && j != k {
        assert Apart(cs, i, j);
      } else if 0 <= i < j < |cs| {
        assert cs[i] in cs && cs[j] in cs;
      }
    }
  }

  class Schedule {
    /** The shared stack, `char stack_[1024*1024]`. */
    const stack: array<bv8>
    var nco: int
    var cap: int
    var runningid: int
    var co: seq<Coroutine?>

    /** The scheduler's value. */
    ghost function View(): State
      reads this, stack, co
    {
      State(stack[..], nco, cap, runningid, Views(co))
    }

    /** Each slot owns its record and the value satisfies the scheduler
      invariant. */
    ghost predicate Valid()
      reads this, stack, co
    {
      Distinct(co) && Inv(View())
    }

    /** `Schedule()`: no coroutine, 16 empty slots, none running. */
    constructor ()
      ensures Valid() && fresh(stack)
      ensures View() == Init(stack[..])
    {
      stack := new bv8[STACK_SIZE];
      nco, cap, runningid := 0, DEFAULT_COROUTINE, -1;
      co := seq(DEFAULT_COROUTINE, _ => null);
      new;
      assert Views(co) == seq(DEFAULT_COROUTINE, _ => None);
      assert View() == Init(stack[..]);
    }

    /** `create`: returns the id CreateOp assigns and the state it yields,
      with a fresh record in that slot; -1 when its `assert(false)` is
      reached, and then nothing has changed. */
    method Create(payload: int) returns (id: int)
      requires Valid()
      modifies this
      ensures Valid()
      ensures id == -1 ==> CreateOp(old(View()), payload) == Abort(NoFreeSlot) && View() == old(View())
      ensures id != -1 ==> CreateOp(old(View()), payload) == Ok(Created(View(), id))
      ensures id != -1 ==> 0 <= id < |co| && co[id] != null && fresh(co[id])
      ensures id != -1 ==> |old(co)| <= |co| && co == Padded(old(co), |co|)[id := co[id]]
      ensures id == -1 ==> co == old(co)
    {
      ghost var s := View();
      var c := new Coroutine(payload);
      GrowSlots(s);
      id := Place(c, payload, s);
    }

    /** create after the growth step: the probe loop and, when it finds a
      null slot, the move of the record into it; `s` is the state create
      started from. */
    method Place(c: Coroutine, payload: int, ghost s: State) returns (id: int)
      requires Inv(s) && Valid() && View() == Grow(s)
      requires c !in co && c.View() == NewRecord(payload)
      modifies this`co, this`nco
      ensures Valid()
      ensures id == -1 ==> CreateOp(s, payload) == Abort(NoFreeSlot) && View() == s
      ensures id != -1 ==> CreateOp(s, payload) == Ok(Created(View(), id)) && 0 <= id < |co| && co[id] == c
      ensures id != -1 ==> co == old(co)[id := c]
      ensures id == -1 ==> co == old(co)
    {
      id := FindSlot();
      assert Views(co) == Grow(s).co && nco == Grow(s).nco;
      if id == -1 {
        CreateFaultCondition(s, payload);
        assert Grow(s) == s;
        return;
      }
      Install(id, c, payload, s);
    }

    /** create's growth step: when `nco` has reached `cap`, double `cap`
      and resize the slot vector with null slots. */
    method GrowSlots(ghost s: State)
      requires Valid() && View() == s
      modifies this`cap, this`co
      ensures Valid() && View() == Grow(s)
      ensures |old(co)| <= cap && co == Padded(old(co), cap)
    {
      if nco >= cap {
        var ext: seq<Coroutine?> := seq(cap, _ => null);
        DistinctGrow(co, ext);
        co := co + ext;
        cap := cap * 2;
      }
      assert co == Padded(old(co), cap);
      assert Views(co) == Grow(s).co;
      assert View() == Grow(s);
      GrowPreservesInv(s);
    }

    /** `co_[id] = std::move(co); nco_++`: move the new record into the
      slot the probe loop found and count it, completing create from `s`. */
    method Install(slot: int, c: Coroutine, payload: int, ghost s: State)
      requires Inv(s) && View() == Grow(s) && Distinct(co)
      requires RingSearch(Grow(s).co, Grow(s).nco, 0) == Some(slot)
      requires c !in co && c.View() == NewRecord(payload)
      modifies this`co, this`nco
      ensures Valid() && co == old(co)[slot := c]
      ensures CreateOp(s, payload) == Ok(Created(View(), slot))
    {
      DistinctPut(co, slot, c);
      co := co[slot := c];
      nco := nco + 1;
      assert Views(co) == Grow(s).co[slot := Some(NewRecord(payload))];
      assert View() == CreateOp(s, payload).value.state;
      CreatePreservesInv(s, payload);
    }

    /** create's probe loop: slot `(i + nco) % cap` for i = 0, 1, ... up to
      the first null one; -1 when all `cap` probes hit a record. */
    method FindSlot() returns (slot: int)
      requires 0 < cap == |co| && 0 <= nco
      ensures slot == -1 <==> RingSearch(Views(co), nco, 0).None?
      ensures slot != -1 ==> RingSearch(Views(co), nco, 0) == Some(slot) && co[slot] == null
    {
      ghost var vs := Views(co);
      assert |vs| == cap;
      var i := 0;
      while i < cap
        invariant 0 <= i <= cap
        invariant RingSearch(vs, nco, 0) == RingSearch(vs, nco, i)
      {
        var id := RingId(nco, cap, i);
        if co[id] == null {
          assert vs[id].None?;
          assert RingSearch(vs, nco, i) == Some(id);
          return id;
        }
        assert vs[id].Some?;
        assert RingSearch(vs, nco, i) == RingSearch(vs, nco, i + 1);
        i := i + 1;
      }
      return -1;
    }

    /** `resume` (the part before the switch to the coroutine's context).
      The source asserts that no coroutine runs, that the id is in range
      and, in its `default` case, that a non-null record is READY or
      SUSPEND (so not DEAD). */
    method Resume(id: int)
      requires Valid()
      requires runningid == -1
      requires 0 <= id < cap
      requires co[id] != null ==> co[id].status != Dead
      modifies this`runningid, stack, co[id]
      ensures Valid() && co == old(co)
      ensures ResumeOp(old(View()), id) == Ok(View())
    {
      ghost var s := View();
      var c := co[id];
      if c == null {
        return;
      }
      DistinctOthers(co, id);
      match c.status {
      case Ready =>
        MakeRunning(id, c);
      case Suspend =>
        RestoreStack(c.stack, c.size);
        MakeRunning(id, c);
      case _ =>
        assert false;
      }
      assert View() == ResumeOp(s, id).value;
      ResumePreservesInv(s, id);
    }

    /** The two assignments both live cases of resume end with:
      `runningid_ = id; C->status = RUNNING`. */
    method MakeRunning(id: int, c: Coroutine)
      requires 0 <= id < |co| && co[id] == c
      requires forall i :: 0 <= i < |co| && i != id ==> co[i] != c
      modifies this`runningid, c`status
      ensures runningid == id && c.status == Running
      ensures Views(co) == old(Views(co))[id := Some(old(c.View()).(status := Running))]
    {
      ghost var vs := Views(co);
      ghost var r := c.View();
      runningid := id;
      c.status := Running;
      assert Views(co) == vs[id := Some(r.(status := Running))];
    }

    /** The copy of resume's SUSPEND case:
      `memcpy(stack_ + STACK_SIZE - size, C->stack, size)`. */
    method RestoreStack(buf: seq<bv8>, size: nat)
      requires stack.Length == STACK_SIZE && size <= |buf| && size <= STACK_SIZE
      modifies stack
      ensures stack[..] == Restore(old(stack[..]), buf, size)
    {
      forall k | 0 <= k < size {
        stack[STACK_SIZE - size + k] := buf[k];
      }
      assert stack[..] == Restore(old(stack[..]), buf, size);
    }

    /** `yield` (the part before the switch back to the main context), with
      the stack depth `top - &dummy` as `extent`. */
    method Yield(extent: nat)
      requires Valid()
      requires runningid >= 0
      requires extent <= STACK_SIZE
      modifies this`runningid, co[runningid]
      ensures Valid() && co == old(co)
      ensures YieldOp(old(View()), extent) == Ok(View())
    {
      ghost var s := View();
      var id := runningid;
      var c := co[id];
      ghost var r := c.View();
      DistinctOthers(co, id);
      SaveStack(c, extent);
      c.status := Suspend;
      runningid := -1;
      assert c.View() == Save(r, s.stack, extent).(status := Suspend);
      assert View() == YieldOp(s, extent).value;
      YieldPreservesInv(s, extent);
    }

    /** `save_stack`: grow the buffer when it is smaller than the extent,
      then copy the top `extent` bytes of the shared stack into it. */
    method SaveStack(c: Coroutine, extent: nat)
      requires stack.Length == STACK_SIZE && extent <= STACK_SIZE && c.cap == |c.stack|
      modifies c`cap, c`size, c`stack
      ensures c.View() == Save(old(c.View()), stack[..], extent)
    {
      if c.cap < extent {
        c.cap := extent;
        c.stack := seq(c.cap, _ => 0);
      }
      c.size := extent;
      c.stack := stack[STACK_SIZE - extent..] + c.stack[c.size..];
    }

    /** The tail of `mainfunc`, once the entry function has returned. */
    method Finish()
      requires Valid()
      requires runningid >= 0
      modifies this`nco, this`runningid, co[runningid]
      ensures Valid() && co == old(co)
      ensures View() == FinishOp(old(View()))
    {
      ghost var s := View();
      var c := co[runningid];
      ghost var r := c.View();
      ghost var id := runningid;
      DistinctOthers(co, id);
      c.status := Dead;
      nco := nco - 1;
      runningid := -1;
      assert Views(co) == s.co[id := Some(r.(status := Dead))];
      assert View() == FinishOp(s);
      FinishPreservesInv(s);
    }

    /** `status`: for an id within the slot vector, the integer code of the
      state the model reports (DEAD for a null slot); the RUNNING code
      exactly for the running id. */
    function StatusCode(id: int): (c: int)
      reads this, stack, co
      requires Valid() && 0 <= id < cap
      ensures 0 <= c <= 3 && FromCode(c) == StatusOf(View(), id)
      ensures c == Code(Running) <==> id == runningid
    {
      RunningIdMeaning(View());
      if co[id] == null then Code(Dead) else Code(co[id].status)
    }

    /** `runningid`: -1 exactly when no slot is RUNNING, otherwise the slot
      that is. */
    function RunningId(): (r: int)
      reads this, stack, co
      requires Valid()
      ensures r == -1 <==> forall i :: 0 <= i < cap ==> StatusCode(i) != Code(Running)
      ensures r == -1 || (0 <= r < cap && StatusCode(r) == Code(Running))
    {
      RunningIdMeaning(View());
      assert runningid >= 0 ==> StatusCode(runningid) == Code(Running);
      runningid
    }
  }
}
