/** What the scheduler promises, proved about the functions of
    ScheduleModel: the invariant every operation keeps, the outcome of each
    operation in each case, and properties of whole runs (the stack round
    trip across a suspension, DEAD being final, and a reachable failure of
    create). */
module ScheduleProperties {
  import opened CoroutineStatus
  import opened ScheduleModel

  // ---------------------------------------------------------------------
  // Counting live slots

  lemma {:induction false} LiveCountAppend(a: seq<Option<Record>>, b: seq<Option<Record>>)
    ensures LiveCount(a + b) == LiveCount(a) + LiveCount(b)
    decreases |b|
  {
    if b == [] {
      assert a + b == a;
    } else {
      var b' := b[..|b| - 1];
      assert (a + b)[..|a + b| - 1] == a + b';
      LiveCountAppend(a, b');
    }
  }

  /** Replacing one slot changes the count by what leaves and what enters. */
  lemma {:induction false} LiveCountUpdate(co: seq<Option<Record>>, i: nat, x: Option<Record>)
    requires i < |co|
    ensures LiveCount(co[i := x]) + (if IsLive(co[i]) then 1 else 0)
         == LiveCount(co) + (if IsLive(x) then 1 else 0)
    decreases |co|
  {
    var n := |co| - 1;
    if i == n {
      assert co[i := x][..n] == co[..n];
    } else {
      assert co[i := x][..n] == co[..n][i := x];
      LiveCountUpdate(co[..n], i, x);
    }
  }

  /** When every slot is occupied, the count falls short of the slot count
      only because some record is DEAD. */
  lemma {:induction false} FullAndShortHasDead(co: seq<Option<Record>>)
    requires forall i :: 0 <= i < |co| ==> co[i].Some?
    requires LiveCount(co) < |co|
    ensures exists i :: 0 <= i < |co| && co[i].value.status == Dead
    decreases |co|
  {
    var n := |co| - 1;
    if IsLive(co[n]) {
      FullAndShortHasDead(co[..n]);
      var i :| 0 <= i < n && co[..n][i].value.status == Dead;
      assert co[i] == co[..n][i];
    }
  }

  // ---------------------------------------------------------------------
  // The ring search visits every slot

  lemma MulMono(c: int, a: int, b: int)
    requires c > 0 && a <= b
    ensures c * a <= c * b
  {
    assert c * b - c * a == c * (b - a);
  }

  lemma ModUnique(x: int, cap: int, q: int, r: int)
    requires cap > 0 && 0 <= r < cap && x == cap * q + r
    ensures x % cap == r
  {
    var q', r' := x / cap, x % cap;
    assert x == cap * q' + r';
    if q' < q {
      MulMono(cap, q', q - 1);
      assert false;
    } else if q' > q {
      MulMono(cap, q + 1, q');
      assert false;
    }
  }

  /** Slot `m` is the one probed at step `(m - nco) % cap`. */
  lemma RingIdHits(nco: int, cap: int, m: int)
    requires cap > 0 && 0 <= m < cap
    ensures 0 <= (m - nco) % cap < cap && RingId(nco, cap, (m - nco) % cap) == m
  {
    ModUnique((m - nco) % cap + nco, cap, -((m - nco) / cap), m);
  }

  /** The search finds nothing exactly when every slot is occupied. */
  lemma RingSearchNoneIffFull(co: seq<Option<Record>>, nco: nat)
    requires 0 < |co|
    ensures RingSearch(co, nco, 0).None? <==> forall m :: 0 <= m < |co| ==> co[m].Some?
  {
    if RingSearch(co, nco, 0).None? {
      forall m | 0 <= m < |co| ensures co[m].Some? {
        RingIdHits(nco, |co|, m);
      }
    }
  }

  // ---------------------------------------------------------------------
  // Construction

  /** The constructed scheduler has no coroutine, capacity 16, no running
      id and 16 empty slots. */
  lemma InitialState(stack0: seq<bv8>)
    requires |stack0| == STACK_SIZE
    ensures Init(stack0).nco == 0 && Init(stack0).cap == 16 && Init(stack0).runningid == -1
    ensures |Init(stack0).co| == 16 && forall i :: 0 <= i < 16 ==> Init(stack0).co[i].None?
    ensures Init(stack0).stack == stack0
  {
  }

  // ---------------------------------------------------------------------
  // create

  /** Growth keeps the live count. */
  lemma GrowKeepsLiveCount(s: State)
    requires Inv(s)
    ensures LiveCount(Grow(s).co) == s.nco
  {
    if s.nco >= s.cap {
      var e: seq<Option<Record>> := seq(s.cap, _ => None);
      assert Grow(s).co == s.co + e;
      LiveCountAppend(s.co, e);
      LiveCountEmpty(s.cap);
    }
  }

  /** Growing the slot vector keeps the invariant. */
  lemma GrowPreservesInv(s: State)
    requires Inv(s)
    ensures Inv(Grow(s))
  {
    GrowKeepsLiveCount(s);
  }

  /** A successful create returns the first empty slot of the grown vector
      in ring order from `nco % cap`, stores a fresh READY record there,
      counts it, and leaves every other slot, the stack and the running id
      as they were. */
  lemma CreatePlacesFirstFree(s: State, payload: int)
    requires Inv(s)
    ensures CreateOp(s, payload).Abort? ==> CreateOp(s, payload).fault == NoFreeSlot
    ensures CreateOp(s, payload).Ok? ==>
              var c := CreateOp(s, payload).value;
              var g := Grow(s);
              0 <= c.id < g.cap && g.co[c.id].None? &&
              (exists k :: 0 <= k < g.cap && c.id == RingId(s.nco, g.cap, k) && FirstFreeFrom(g.co, s.nco, 0, k)) &&
              c.state.co[c.id] == Some(NewRecord(payload)) &&
              (forall i :: 0 <= i < g.cap && i != c.id ==> c.state.co[i] == g.co[i]) &&
              c.state.nco == s.nco + 1 && c.state.cap == g.cap &&
              c.state.stack == s.stack && c.state.runningid == s.runningid
  {
  }

  /** create keeps the invariant. */
  lemma CreatePreservesInv(s: State, payload: int)
    requires Inv(s)
    ensures CreateOp(s, payload).Ok? ==> Inv(CreateOp(s, payload).value.state)
  {
    var g := Grow(s);
    match RingSearch(g.co, g.nco, 0)
    case None =>
    case Some(id) =>
      GrowPreservesInv(s);
      var t := g.(co := g.co[id := Some(NewRecord(payload))], nco := g.nco + 1);
      assert CreateOp(s, payload).value.state == t;
      assert g.co[id].None?;
      LiveCountUpdate(g.co, id, Some(NewRecord(payload)));
      forall i | 0 <= i < |t.co| ensures IsRunning(t.co[i]) <==> i == t.runningid {
        if i != id {
          assert t.co[i] == g.co[i];
        }
      }
  }

  /** create fails exactly when the capacity was not reached and yet every
      slot is occupied; that can only be because a DEAD record still holds
      its slot while no longer being counted. */
  lemma CreateFaultCondition(s: State, payload: int)
    requires Inv(s)
    ensures CreateOp(s, payload).Abort? <==>
              s.nco < s.cap && forall i :: 0 <= i < |s.co| ==> s.co[i].Some?
    ensures CreateOp(s, payload).Abort? ==>
              exists i :: 0 <= i < |s.co| && s.co[i].Some? && s.co[i].value.status == Dead
  {
    var g := Grow(s);
    RingSearchNoneIffFull(g.co, g.nco);
    if s.nco >= s.cap {
      assert g.co[|s.co|].None?;
    } else {
      assert g == s;
    }
    if CreateOp(s, payload).Abort? {
      FullAndShortHasDead(s.co);
    }
  }

  // ---------------------------------------------------------------------
  // resume

  /** The failures and the no-op of resume. */
  lemma ResumeFaults(s: State, id: int)
    requires Inv(s)
    ensures s.runningid != -1 ==> ResumeOp(s, id) == Abort(NotIdle)
    ensures s.runningid == -1 && !(0 <= id < s.cap) ==> ResumeOp(s, id) == Abort(BadId)
    ensures s.runningid == -1 && 0 <= id < s.cap && s.co[id].None? ==> ResumeOp(s, id) == Ok(s)
    ensures s.runningid == -1 && 0 <= id < s.cap && s.co[id].Some? ==>
              (ResumeOp(s, id) == Abort(BadStatus) <==> s.co[id].value.status == Dead)
  {
  }

  /** Resuming a READY or SUSPEND record makes it the running one; only a
      SUSPEND record touches the shared stack, and then only its top `size`
      bytes, which become the saved image. */
  lemma ResumeRuns(s: State, id: int)
    requires Inv(s) && s.runningid == -1 && 0 <= id < s.cap
    requires s.co[id].Some? && s.co[id].value.status != Dead
    ensures ResumeOp(s, id).Ok?
    ensures var s', r := ResumeOp(s, id).value, s.co[id].value;
            s'.runningid == id && s'.co[id] == Some(r.(status := Running)) &&
            |s'.co| == |s.co| && (forall i :: 0 <= i < |s.co| && i != id ==> s'.co[i] == s.co[i]) &&
            s'.nco == s.nco && s'.cap == s.cap && |s'.stack| == STACK_SIZE &&
            (r.status == Ready ==> s'.stack == s.stack) &&
            (r.status == Suspend ==>
               s'.stack[STACK_SIZE - r.size..] == r.buf[..r.size] &&
               s'.stack[..STACK_SIZE - r.size] == s.stack[..STACK_SIZE - r.size])
  {
    assert s.co[id].value.status != Running;
  }

  /** resume keeps the invariant. */
  lemma ResumePreservesInv(s: State, id: int)
    requires Inv(s)
    ensures ResumeOp(s, id).Ok? ==> Inv(ResumeOp(s, id).value)
  {
    if s.runningid == -1 && 0 <= id < s.cap && s.co[id].Some? {
      var r := s.co[id].value;
      LiveCountUpdate(s.co, id, Some(r.(status := Running)));
    }
  }

  // ---------------------------------------------------------------------
  // yield and save_stack

  /** save_stack grows the buffer to the extent when it is smaller and never
      shrinks it, and the front `extent` bytes are the top of the stack. */
  lemma SaveCopiesTop(r: Record, stack: seq<bv8>, extent: nat)
    requires |stack| == STACK_SIZE && extent <= STACK_SIZE && r.cap == |r.buf|
    ensures var r' := Save(r, stack, extent);
            r'.cap == (if r.cap < extent then extent else r.cap) && r'.cap >= r.cap &&
            |r'.buf| == r'.cap && r'.size == extent &&
            r'.buf[..extent] == stack[STACK_SIZE - extent..] &&
            r'.payload == r.payload && r'.status == r.status
  {
  }

  /** The failures of yield. */
  lemma YieldFaults(s: State, extent: nat)
    requires Inv(s)
    ensures s.runningid < 0 ==> YieldOp(s, extent) == Abort(NotRunning)
    ensures s.runningid >= 0 && extent > STACK_SIZE ==> YieldOp(s, extent) == Abort(StackOverflow)
  {
  }

  /** yield saves the running coroutine's top `extent` stack bytes into its
      buffer, marks it SUSPEND, and leaves no coroutine running. */
  lemma YieldSuspends(s: State, extent: nat)
    requires Inv(s) && s.runningid >= 0 && extent <= STACK_SIZE
    ensures YieldOp(s, extent).Ok?
    ensures var s', id := YieldOp(s, extent).value, s.runningid;
            var r := s.co[id].value;
            s'.runningid == -1 && s'.co[id].Some? &&
            s'.co[id] == Some(Save(r, s.stack, extent).(status := Suspend)) &&
            s'.co[id].value.buf[..extent] == s.stack[STACK_SIZE - extent..] &&
            s'.co[id].value.size == extent && s'.co[id].value.cap >= r.cap &&
            |s'.co| == |s.co| && (forall i :: 0 <= i < |s.co| && i != id ==> s'.co[i] == s.co[i]) &&
            s'.stack == s.stack && s'.nco == s.nco && s'.cap == s.cap
  {
    SaveCopiesTop(s.co[s.runningid].value, s.stack, extent);
  }

  /** yield keeps the invariant. */
  lemma YieldPreservesInv(s: State, extent: nat)
    requires Inv(s)
    ensures YieldOp(s, extent).Ok? ==> Inv(YieldOp(s, extent).value)
  {
    if s.runningid >= 0 && extent <= STACK_SIZE {
      var r := s.co[s.runningid].value;
      SaveCopiesTop(r, s.stack, extent);
      LiveCountUpdate(s.co, s.runningid, Some(Save(r, s.stack, extent).(status := Suspend)));
    }
  }

  // ---------------------------------------------------------------------
  // The end of mainfunc

  /** When the entry returns, the record is DEAD yet keeps its slot, the
      count drops by one and no coroutine runs. */
  lemma FinishKills(s: State)
    requires Inv(s) && s.runningid >= 0
    ensures var s', id := FinishOp(s), s.runningid;
            s'.co[id] == Some(s.co[id].value.(status := Dead)) &&
            |s'.co| == |s.co| && (forall i :: 0 <= i < |s.co| && i != id ==> s'.co[i] == s.co[i]) &&
            s'.nco == s.nco - 1 && s'.runningid == -1 && s'.stack == s.stack && s'.cap == s.cap
  {
  }

  /** The end of mainfunc keeps the invariant. */
  lemma FinishPreservesInv(s: State)
    requires Inv(s) && s.runningid >= 0
    ensures Inv(FinishOp(s))
  {
    var r := s.co[s.runningid].value;
    LiveCountUpdate(s.co, s.runningid, Some(r.(status := Dead)));
  }

  // ---------------------------------------------------------------------
  // status and runningid

  /** `runningid` is -1 exactly when no slot reports RUNNING, and otherwise
      names the one slot that does. */
  lemma RunningIdMeaning(s: State)
    requires Inv(s)
    ensures s.runningid == -1 <==> forall i :: 0 <= i < |s.co| ==> StatusOf(s, i) != Running
    ensures s.runningid >= 0 ==> StatusOf(s, s.runningid) == Running
    ensures forall i :: 0 <= i < |s.co| ==> (StatusOf(s, i) == Running <==> i == s.runningid)
  {
    assert forall i :: 0 <= i < |s.co| ==> (StatusOf(s, i) == Running <==> IsRunning(s.co[i]));
    if s.runningid >= 0 {
      assert IsRunning(s.co[s.runningid]);
    }
  }

  // ---------------------------------------------------------------------
  // Runs of the scheduler

  /** What can happen to a scheduler: its public operations, the entry
      function returning, and the entry function's code storing a byte in
      the shared stack. */
  datatype Event =
    | Create(payload: int)
    | Resume(id: int)
    | Yield(extent: nat)
    | Finish
    | Store(index: nat, byte: bv8)

  function Apply(s: State, e: Event): Result<State>
    requires Inv(s)
  {
    match e
    case Create(p) => (match CreateOp(s, p) case Ok(c) => Ok(c.state) case Abort(f) => Abort(f))
    case Resume(id) => ResumeOp(s, id)
    case Yield(x) => YieldOp(s, x)
    case Finish => if s.runningid < 0 then Abort(NotRunning) else Ok(FinishOp(s))
    case Store(k, b) => if k < STACK_SIZE then Ok(s.(stack := s.stack[k := b])) else Abort(OutsideStack)
  }

  /** Every event keeps the invariant. */
  lemma ApplyPreservesInv(s: State, e: Event)
    requires Inv(s)
    ensures Apply(s, e).Ok? ==> Inv(Apply(s, e).value)
  {
    match e
    case Create(p) => CreatePreservesInv(s, p);
    case Resume(id) => ResumePreservesInv(s, id);
    case Yield(x) => YieldPreservesInv(s, x);
    case Finish => if s.runningid >= 0 { FinishPreservesInv(s); }
    case Store(k, b) =>
  }

  /** The events in order, stopping at the first failed assertion; every
      state reached satisfies the invariant. */
  function Run(s: State, t: seq<Event>): (r: Result<State>)
    requires Inv(s)
    ensures r.Ok? ==> Inv(r.value)
    decreases |t|
  {
    if t == [] then Ok(s)
    else
      ApplyPreservesInv(s, t[0]);
      match Apply(s, t[0])
      case Abort(f) => Abort(f)
      case Ok(s') => Run(s', t[1..])
  }

  lemma {:induction false} RunAppend(s: State, a: seq<Event>, b: seq<Event>)
    requires Inv(s)
    ensures Run(s, a).Abort? ==> Run(s, a + b) == Run(s, a)
    ensures Run(s, a).Ok? ==> Run(s, a + b) == Run(Run(s, a).value, b)
    decreases |a|
  {
    if a == [] {
      assert a + b == b;
    } else {
      assert (a + b)[0] == a[0] && (a + b)[1..] == a[1..] + b;
      ApplyPreservesInv(s, a[0]);
      var r := Apply(s, a[0]);
      if r.Ok? {
        RunAppend(r.value, a[1..], b);
      }
    }
  }

  /** A record that is not running: READY, SUSPEND or DEAD. */
  predicate Parked(o: Option<Record>) {
    o.Some? && o.value.status != Running
  }

  /** A record that is not running is changed by no event other than a
      resume of its own id, and a DEAD one by none at all. */
  lemma ApplyKeepsParked(s: State, e: Event, id: int)
    requires Inv(s) && 0 <= id < |s.co| && Parked(s.co[id])
    requires e != Resume(id) || s.co[id].value.status == Dead
    ensures Apply(s, e).Ok? ==> id < |Apply(s, e).value.co| && Apply(s, e).value.co[id] == s.co[id]
  {
    match e
    case Create(p) =>
      CreatePlacesFirstFree(s, p);
    case Resume(j) =>
    case Yield(x) =>
    case Finish =>
    case Store(k, b) =>
  }

  lemma {:induction false} RunKeepsParked(s: State, t: seq<Event>, id: int)
    requires Inv(s) && 0 <= id < |s.co| && Parked(s.co[id])
    requires s.co[id].value.status == Dead || forall k :: 0 <= k < |t| ==> t[k] != Resume(id)
    ensures Run(s, t).Ok? ==> id < |Run(s, t).value.co| && Run(s, t).value.co[id] == s.co[id]
    decreases |t|
  {
    if t != [] {
      ApplyKeepsParked(s, t[0], id);
      ApplyPreservesInv(s, t[0]);
      var r := Apply(s, t[0]);
      if r.Ok? {
        assert forall k :: 0 <= k < |t[1..]| ==> t[1..][k] == t[k + 1];
        RunKeepsParked(r.value, t[1..], id);
      }
    }
  }

  /** The shared-stack round trip: a coroutine yields with `extent` bytes of
      stack in use; whatever happens next (other coroutines created, run,
      suspended or finished, any byte of the shared stack overwritten), as
      long as it is not resumed, resuming it puts back exactly the `extent`
      top bytes it had at the yield and leaves the rest of the stack as it
      found it. */
  lemma {:induction false} YieldResumeRoundTrip(s: State, extent: nat, t: seq<Event>)
    requires Inv(s) && s.runningid >= 0 && extent <= STACK_SIZE
    requires forall k :: 0 <= k < |t| ==> t[k] != Resume(s.runningid)
    ensures YieldOp(s, extent).Ok? && Inv(YieldOp(s, extent).value)
    ensures var s1 := YieldOp(s, extent).value;
            Run(s1, t).Ok? && Run(s1, t).value.runningid == -1 ==>
              var s2 := Run(s1, t).value;
              ResumeOp(s2, s.runningid).Ok? &&
              var s3 := ResumeOp(s2, s.runningid).value;
              s3.runningid == s.runningid && StatusOf(s3, s.runningid) == Running &&
              s3.stack[STACK_SIZE - extent..] == s.stack[STACK_SIZE - extent..] &&
              s3.stack[..STACK_SIZE - extent] == s2.stack[..STACK_SIZE - extent]
  {
    var id := s.runningid;
    YieldSuspends(s, extent);
    YieldPreservesInv(s, extent);
    var s1 := YieldOp(s, extent).value;
    RunKeepsParked(s1, t, id);
    if Run(s1, t).Ok? && Run(s1, t).value.runningid == -1 {
      var s2 := Run(s1, t).value;
      assert s2.co[id] == s1.co[id];
      ResumeRuns(s2, id);
    }
  }

  /** DEAD is final: no run changes a DEAD record's status, and resuming it
      always trips an assertion. */
  lemma DeadIsAbsorbing(s: State, t: seq<Event>, id: int)
    requires Inv(s) && 0 <= id < |s.co| && s.co[id].Some? && s.co[id].value.status == Dead
    ensures ResumeOp(s, id).Abort?
    ensures Run(s, t).Ok? ==> id < |Run(s, t).value.co| && StatusOf(Run(s, t).value, id) == Dead
  {
    RunKeepsParked(s, t, id);
  }

  // ---------------------------------------------------------------------
  // create can fail

  function Creates(k: nat): seq<Event> {
    seq(k, _ => Create(0))
  }

  /** The first `k` creates on a new scheduler, each filling the next slot. */
  function Filled(stack0: seq<bv8>, k: nat): State {
    State(stack0, k, DEFAULT_COROUTINE, -1,
          seq(DEFAULT_COROUTINE, i => if i < k then Some(NewRecord(0)) else None))
  }

  lemma {:induction false} FillFromInit(stack0: seq<bv8>, k: nat)
    requires |stack0| == STACK_SIZE && k <= DEFAULT_COROUTINE
    ensures Run(Init(stack0), Creates(k)) == Ok(Filled(stack0, k))
  {
    if k == 0 {
      assert Creates(0) == [];
      assert Init(stack0) == Filled(stack0, 0);
    } else {
      FillFromInit(stack0, k - 1);
      assert Creates(k) == Creates(k - 1) + [Create(0)];
      RunAppend(Init(stack0), Creates(k - 1), [Create(0)]);
      FillStep(stack0, k);
      assert Apply(Filled(stack0, k - 1), Create(0)) == Ok(Filled(stack0, k));
    }
  }

  /** The `k`-th create on a new scheduler finds slot `k - 1`: the ring
      search starts at `nco % cap == k - 1`, which is still empty. */
  lemma FillStep(stack0: seq<bv8>, k: nat)
    requires |stack0| == STACK_SIZE && 1 <= k <= DEFAULT_COROUTINE
    requires Inv(Filled(stack0, k - 1))
    ensures CreateOp(Filled(stack0, k - 1), 0) == Ok(Created(Filled(stack0, k), k - 1))
  {
    var f := Filled(stack0, k - 1);
    assert RingId(f.nco, f.cap, 0) == k - 1;
    assert f.co[k - 1].None?;
    assert Grow(f) == f;
    assert RingSearch(f.co, f.nco, 0) == Some(k - 1);
    assert f.co[k - 1 := Some(NewRecord(0))] == Filled(stack0, k).co;
  }

  /** The state after sixteen creates, the first coroutine run to its end. */
  function Drained(stack0: seq<bv8>): State {
    var f := Filled(stack0, 16);
    f.(nco := 15, co := f.co[0 := Some(NewRecord(0).(status := Dead))])
  }

  lemma FirstRunsToEnd(stack0: seq<bv8>)
    requires |stack0| == STACK_SIZE
    ensures Inv(Filled(stack0, 16)) && Run(Filled(stack0, 16), [Resume(0), Finish]) == Ok(Drained(stack0))
  {
    FillFromInit(stack0, 16);
    var f := Filled(stack0, 16);
    var s1 := f.(runningid := 0, co := f.co[0 := Some(NewRecord(0).(status := Running))]);
    assert ResumeOp(f, 0) == Ok(s1);
    ResumePreservesInv(f, 0);
    assert Run(f, [Resume(0), Finish]) == Run(s1, [Finish]);
    FinishPreservesInv(s1);
    assert FinishOp(s1) == Drained(stack0);
    assert Apply(s1, Finish) == Ok(Drained(stack0));
    assert Run(s1, [Finish]) == Run(Drained(stack0), []);
  }

  lemma DrainedCreateFaults(stack0: seq<bv8>)
    requires |stack0| == STACK_SIZE
    ensures Inv(Drained(stack0)) && CreateOp(Drained(stack0), 0) == Abort(NoFreeSlot)
  {
    FirstRunsToEnd(stack0);
    var d := Drained(stack0);
    var f := Filled(stack0, 16);
    assert forall i :: 0 <= i < |f.co| ==> f.co[i] == Some(NewRecord(0));
    assert forall i :: 0 <= i < |d.co| ==> d.co[i].Some?;
    CreateFaultCondition(d, 0);
  }

  /** The assertion of create that its comment calls unreachable is reached:
      sixteen creates fill every slot, the first coroutine runs to its end
      (its record stays, `nco` drops to 15), and the next create neither
      grows nor finds an empty slot. */
  lemma CreateFaultReachable(stack0: seq<bv8>)
    requires |stack0| == STACK_SIZE
    ensures Run(Init(stack0), Creates(16) + [Resume(0), Finish, Create(0)]) == Abort(NoFreeSlot)
  {
    FillFromInit(stack0, 16);
    FirstRunsToEnd(stack0);
    DrainedCreateFaults(stack0);
    var t := Creates(16) + [Resume(0), Finish];
    assert Creates(16) + [Resume(0), Finish, Create(0)] == t + [Create(0)];
    RunAppend(Init(stack0), Creates(16), [Resume(0), Finish]);
    RunAppend(Init(stack0), t, [Create(0)]);
    assert Run(Drained(stack0), [Create(0)]) == Abort(NoFreeSlot);
  }
}
