/** The guest scheduler as a state machine: spawn, resume, park and abort from the coordinator,
    ticks from the timer interrupt, and rotations from the scheduler task. */
module SchedModel {

  datatype Native = Absent | Ready | Suspended

  /** One slot of the port: task handle (0 is NULL), generation, scheduler-blocked flag, and what
      the RTOS does with a guest task. */
  datatype Slot = Slot(tid: nat, gen: nat, blocked: bool, native: Native)

  const FREE := Slot(0, 0, false, Absent)

  /** The core's side of a slot: its runnable capability and generation. */
  datatype Core = Core(runnable: bool, gen: nat)

  datatype State = State(slots: seq<Slot>, core: seq<Core>, selected: int,
                         pending: bool, owner: nat, ownerGen: nat,
                         ticks: nat, budgetOwner: nat, sem: bool, awake: bool)

  datatype Event =
    | Publish(i: int, gen: nat)           // the core makes slot i runnable
    | Clear(i: int)                       // the core withdraws the capability
    | Spawn(i: int, gen: nat, ok: bool)   // ok: the RTOS created a task whose profile checks out
    | Resume(i: int, gen: nat, ok: bool)  // ok: the parked handoff and memory policy match
    | Park(i: int, gen: nat)
    | Abort(i: int, gen: nat)
    | Tick(running: int, trap: bool, weight: nat)
    | Wake                                // the scheduler task takes its semaphore
    | Rotate                              // and then runs its critical section

  /** The static control block gives slot i the same handle every time. */
  function Handle(i: int): nat { if i < 0 then 0 else i + 1 }

  predicate InRange(s: State, i: int) { 0 <= i < |s.slots| && |s.core| == |s.slots| }

  /** freertos_sched_slot_runnable */
  predicate Runnable(s: State, i: int) {
    && InRange(s, i) && s.slots[i].tid != 0 && s.slots[i].gen != 0
    && s.core[i].runnable && s.core[i].gen == s.slots[i].gen
  }

  predicate Waiting(s: State, i: int) { Runnable(s, i) && s.slots[i].blocked }

  // ---- what the code does -------------------------------------------------------------

  /** The n-th slot after `after`, cyclically. */
  function Nth(s: State, after: int, n: nat): int
    requires |s.slots| > 0
  {
    (after + n + |s.slots|) % |s.slots|
  }

  function FindFrom(s: State, after: int, ignore: int, n: nat): int
    requires |s.slots| > 0
    decreases |s.slots| + 1 - n
  {
    if n > |s.slots| then -1
    else if Nth(s, after, n) != ignore && Waiting(s, Nth(s, after, n)) then Nth(s, after, n)
    else FindFrom(s, after, ignore, n + 1)
  }

  /** freertos_sched_find_next_locked */
  function FindNext(s: State, after: int, ignore: int): (r: int)
    requires |s.slots| > 0
    ensures -1 <= r < |s.slots|
    ensures r >= 0 ==> r != ignore && Waiting(s, r)
  {
    NextInRange(s, after, ignore, 1);
    FindFrom(s, after, ignore, 1)
  }

  function SetSlot(s: State, i: int, x: Slot): (r: State)
    requires 0 <= i < |s.slots|
    ensures |r.slots| == |s.slots|
  {
    s.(slots := s.slots[i := x])
  }

  function ResetBudget(s: State): State { s.(ticks := 0, budgetOwner := 0) }

  function CancelRotation(s: State): State { s.(pending := false, owner := 0, ownerGen := 0) }

  /** freertos_sched_activate_locked */
  function Activate(s: State, i: int): (r: State)
    requires i < |s.slots|
    ensures |r.slots| == |s.slots|
  {
    if i < 0 then s
    else ResetBudget(SetSlot(s, i, s.slots[i].(blocked := false, native := Ready)).(selected := i))
  }

  /** freertos_sched_register_ready for a slot whose task exists. */
  function Register(s: State, i: int): (r: State)
    requires 0 <= i < |s.slots|
    ensures |r.slots| == |s.slots|
  {
    if !Runnable(s, s.selected) || s.slots[s.selected].blocked then
      ResetBudget(SetSlot(s, i, s.slots[i].(blocked := false, native := Ready)).(selected := i))
    else if s.selected != i then
      SetSlot(s, i, s.slots[i].(blocked := true, native := Suspended))
    else s
  }

  /** The RTOS has made a task for slot i, natively ready, and the port has not registered it. */
  function Created(s: State, i: int, gen: nat): (r: State)
    requires 0 <= i < |s.slots|
    ensures |r.slots| == |s.slots|
  {
    SetSlot(s, i, Slot(Handle(i), gen, s.slots[i].blocked, Ready))
  }

  function SpawnStep(s: State, i: int, gen: nat, ok: bool): (r: State)
    ensures |r.slots| == |s.slots|
  {
    if !InRange(s, i) || gen == 0 || s.slots[i].tid != 0 || !ok then s
    else Register(Created(s, i, gen), i)
  }

  function ResumeStep(s: State, i: int, gen: nat, ok: bool): (r: State)
    ensures |r.slots| == |s.slots|
  {
    if !InRange(s, i) || gen == 0 || s.slots[i].tid == 0 || s.slots[i].gen != gen || !ok then s
    else Register(s, i)
  }

  /** The part park and abort share: if slot i was selected, cancel and hand over. */
  function HandOver(s: State, i: int, was: bool): (r: State)
    requires |s.slots| > 0
    ensures |r.slots| == |s.slots|
  {
    if !was then s
    else
      var t := ResetBudget(CancelRotation(s.(selected := -1)));
      Activate(t, FindNext(t, i, i))
  }

  function ParkStep(s: State, i: int, gen: nat): (r: State)
    ensures |r.slots| == |s.slots|
  {
    if !Runnable(s, i) || s.slots[i].gen != gen then s
    else HandOver(SetSlot(s, i, s.slots[i].(blocked := false, native := Suspended)), i, s.selected == i)
  }

  function AbortStep(s: State, i: int, gen: nat): (r: State)
    ensures |r.slots| == |s.slots|
  {
    if !InRange(s, i) || (s.slots[i].tid != 0 && s.slots[i].gen != gen) then s
    else HandOver(SetSlot(s, i, FREE), i, s.selected == i)
  }

  function RotateStep(s: State): (r: State)
    ensures |r.slots| == |s.slots|
  {
    var t := CancelRotation(s).(awake := false);
    if Runnable(s, s.selected) && s.slots[s.selected].tid == s.owner && s.slots[s.selected].gen == s.ownerGen then
      var next := FindNext(t, s.selected, -1);
      if next < 0 then t
      else Activate(SetSlot(t, s.selected, t.slots[s.selected].(blocked := true, native := Suspended)), next)
    else t
  }

  /** Ticks a guest of this weight may run: 20 is the weight of nice 0. */
  function Quantum(base: nat, weight: nat): nat {
    var q := (base * weight + 19) / 20;
    if q == 0 then 1 else q
  }

  /** Some other guest is waiting. */
  predicate OtherWaits(s: State, current: int) {
    exists i :: 0 <= i < |s.slots| && i != current && Waiting(s, i)
  }

  /** lxp_freertos_tick; `running` is the guest the tick interrupted, -1 for host work. */
  function TickStep(s: State, running: int, trap: bool, weight: nat, base: nat): (r: State)
    ensures |r.slots| == |s.slots|
  {
    if !trap then ResetBudget(s)
    else if !Runnable(s, running) then s
    else
      var mine := s.slots[running].tid;
      var used := (if s.budgetOwner != mine then 0 else s.ticks) + 1;
      if used < Quantum(base, weight) then s.(budgetOwner := mine, ticks := used)
      else if OtherWaits(s, running) && !s.pending then
        s.(budgetOwner := mine, ticks := 0, pending := true, owner := mine, ownerGen := s.slots[running].gen,
           sem := true)
      else s.(budgetOwner := mine, ticks := 0)
  }

  function Step(s: State, e: Event, base: nat): (r: State)
    ensures |r.slots| == |s.slots|
  {
    match e
    case Publish(i, gen) => if InRange(s, i) then s.(core := s.core[i := Core(true, gen)]) else s
    case Clear(i) => if InRange(s, i) then s.(core := s.core[i := s.core[i].(runnable := false)]) else s
    case Spawn(i, gen, ok) => SpawnStep(s, i, gen, ok)
    case Resume(i, gen, ok) => ResumeStep(s, i, gen, ok)
    case Park(i, gen) => ParkStep(s, i, gen)
    case Abort(i, gen) => AbortStep(s, i, gen)
    case Tick(running, trap, weight) => TickStep(s, running, trap, weight, base)
    case Wake => if s.sem then s.(sem := false, awake := true) else s
    case Rotate => if s.awake then RotateStep(s) else s
  }

  // ---- the search ---------------------------------------------------------------------------

  lemma {:induction false} NextInRange(s: State, after: int, ignore: int, n: nat)
    requires |s.slots| > 0
    ensures -1 <= FindFrom(s, after, ignore, n) < |s.slots|
    ensures FindFrom(s, after, ignore, n) >= 0 ==>
              Waiting(s, FindFrom(s, after, ignore, n)) && FindFrom(s, after, ignore, n) != ignore
    decreases |s.slots| + 1 - n
  {
    if n <= |s.slots| {
      NextInRange(s, after, ignore, n + 1);
    }
  }
}
