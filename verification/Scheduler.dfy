/** What the guest scheduler keeps in every reachable state, how long a waiting guest can wait,
    and the port's own code as a class that follows the state machine. */
module Scheduler {
  import opened SchedModel
  import Bytes

  // ---- the invariant ------------------------------------------------------------------------

  predicate SlotOk(s: State, i: int)
    requires InRange(s, i)
  {
    var x := s.slots[i];
    && (x.tid == 0 ==> x == FREE)
    && (x.tid != 0 ==> x.tid == Handle(i) && x.gen != 0 && x.native != Absent)
    && (x.native == Ready ==> i == s.selected)
    && (x.blocked ==> x.native == Suspended && Runnable(s, i))
  }

  /** At most one guest is natively ready, and it is the selected, runnable one; somebody is
      selected whenever somebody waits; a pending request names the selected task. */
  ghost predicate Inv(s: State, base: nat) {
    && |s.slots| > 0 && |s.core| == |s.slots| && base > 0
    && (forall i :: 0 <= i < |s.slots| ==> SlotOk(s, i))
    && -1 <= s.selected < |s.slots|
    && (s.selected >= 0 ==>
        Runnable(s, s.selected) && s.slots[s.selected].native == Ready && !s.slots[s.selected].blocked)
    && (forall i :: 0 <= i < |s.slots| && s.slots[i].blocked ==> s.selected >= 0)
    && (s.pending ==> s.selected >= 0 && s.owner == s.slots[s.selected].tid && s.ownerGen == s.slots[s.selected].gen)
    && (!s.pending ==> s.owner == 0)
    && (s.pending ==> s.sem || s.awake)
    && s.ticks < 2 * base
  }

  /** What the core and the hardware promise: a capability is published before spawn or resume and
      withdrawn only from a slot that is parked or gone; a tick interrupts a task that is natively
      ready; weights are 1..40. */
  predicate Allowed(s: State, e: Event) {
    match e
    case Publish(i, gen) =>
      InRange(s, i) ==>
      gen != 0 && i != s.selected && !s.slots[i].blocked && (s.slots[i].tid == 0 || s.slots[i].gen == gen)
    case Clear(i) => InRange(s, i) ==> i != s.selected && !s.slots[i].blocked
    case Spawn(i, gen, ok) => InRange(s, i) ==> s.core[i] == Core(true, gen)
    case Resume(i, gen, ok) => InRange(s, i) ==> s.core[i] == Core(true, gen)
    case Tick(running, trap, weight) =>
      running >= 0 ==> InRange(s, running) && s.slots[running].native == Ready && 1 <= weight <= 40
    case _ => true
  }

  function Init(n: nat): State {
    State(seq(n, _ => FREE), seq(n, _ => Core(false, 0)), -1, false, 0, 0, 0, 0, false, false)
  }

  lemma InitInv(n: nat, base: nat)
    requires n > 0 && base > 0
    ensures Inv(Init(n), base)
  {
  }

  // ---- every step keeps it --------------------------------------------------------------------

  lemma {:induction false} NoneFound(s: State, after: int, ignore: int, n: nat, m: nat)
    requires |s.slots| > 0 && 1 <= n <= m <= |s.slots| && FindFrom(s, after, ignore, n) == -1
    ensures Nth(s, after, m) == ignore || !Waiting(s, Nth(s, after, m))
    decreases m - n
  {
    NextInRange(s, after, ignore, n + 1);
    if n < m {
      NoneFound(s, after, ignore, n + 1, m);
    }
  }

  /** Steps from slot a to slot b going round: 1..n, n for b == a. */
  function Dist(n: nat, a: int, b: int): nat
    requires 0 <= a < n && 0 <= b < n
  {
    if b > a then b - a else b - a + n
  }

  lemma NthDist(s: State, a: int, b: int)
    requires 0 <= a < |s.slots| && 0 <= b < |s.slots|
    ensures Nth(s, a, Dist(|s.slots|, a, b)) == b && 1 <= Dist(|s.slots|, a, b) <= |s.slots|
  {
    var n := |s.slots|;
    if b > a { Bytes.DivUnique(b + n, n, 1, b); } else { Bytes.DivUnique(b + 2 * n, n, 2, b); }
  }

  lemma NthBack(s: State, a: int, k: nat)
    requires 0 <= a < |s.slots| && 1 <= k <= |s.slots|
    ensures 0 <= Nth(s, a, k) < |s.slots| && Dist(|s.slots|, a, Nth(s, a, k)) == k
  {
    var n := |s.slots|;
    if a + k < n { Bytes.DivUnique(a + k + n, n, 1, a + k); } else { Bytes.DivUnique(a + k + n, n, 2, a + k - n); }
  }

  /** A waiting guest other than the ignored one is never missed. */
  lemma FindsSome(s: State, after: int, ignore: int, g: int)
    requires 0 <= after < |s.slots| && Waiting(s, g) && g != ignore
    ensures FindNext(s, after, ignore) >= 0
  {
    NthDist(s, after, g);
    NextInRange(s, after, ignore, 1);
    if FindNext(s, after, ignore) == -1 {
      NoneFound(s, after, ignore, 1, Dist(|s.slots|, after, g));
    }
  }

  lemma HandOverKeeps(s: State, i: int, base: nat)
    requires |s.slots| > 0 && |s.core| == |s.slots| && base > 0 && 0 <= i < |s.slots|
    requires forall k :: 0 <= k < |s.slots| ==> SlotOk(s.(selected := -1), k)
    requires !s.slots[i].blocked
    ensures Inv(HandOver(s, i, true), base)
  {
    var t := ResetBudget(CancelRotation(s.(selected := -1)));
    var next := FindNext(t, i, i);
    forall k | 0 <= k < |t.slots| ensures SlotOk(t, k) && (t.slots[k].blocked ==> next >= 0) {
      assert SlotOk(s.(selected := -1), k);
      if t.slots[k].blocked {
        FindsSome(t, i, i, k);
      }
    }
    var r := Activate(t, next);
    forall k | 0 <= k < |r.slots| ensures SlotOk(r, k) {
      assert SlotOk(t, k);
    }
  }

  lemma ParkKeeps(s: State, i: int, gen: nat, base: nat)
    requires Inv(s, base)
    ensures Inv(ParkStep(s, i, gen), base)
  {
    if Runnable(s, i) && s.slots[i].gen == gen {
      var t := SetSlot(s, i, s.slots[i].(blocked := false, native := Suspended));
      forall k | 0 <= k < |s.slots| ensures SlotOk(s, k) {}
      if s.selected == i {
        forall k | 0 <= k < |t.slots| ensures SlotOk(t.(selected := -1), k) { assert SlotOk(s, k); }
        HandOverKeeps(t, i, base);
      } else {
        forall k | 0 <= k < |t.slots| ensures SlotOk(t, k) { assert SlotOk(s, k); }
      }
    }
  }

  lemma AbortKeeps(s: State, i: int, gen: nat, base: nat)
    requires Inv(s, base)
    ensures Inv(AbortStep(s, i, gen), base)
  {
    if InRange(s, i) && (s.slots[i].tid == 0 || s.slots[i].gen == gen) {
      var t := SetSlot(s, i, FREE);
      if s.selected == i {
        forall k | 0 <= k < |t.slots| ensures SlotOk(t.(selected := -1), k) { assert SlotOk(s, k); }
        HandOverKeeps(t, i, base);
      } else {
        forall k | 0 <= k < |t.slots| ensures SlotOk(t, k) { assert SlotOk(s, k); }
      }
    }
  }

  lemma RotateKeeps(s: State, base: nat)
    requires Inv(s, base)
    ensures Inv(RotateStep(s), base)
  {
    var t := CancelRotation(s).(awake := false);
    forall k | 0 <= k < |t.slots| ensures SlotOk(t, k) { assert SlotOk(s, k); }
    if Runnable(s, s.selected) && s.slots[s.selected].tid == s.owner && s.slots[s.selected].gen == s.ownerGen {
      var next := FindNext(t, s.selected, -1);
      if next >= 0 {
        var u := SetSlot(t, s.selected, t.slots[s.selected].(blocked := true, native := Suspended));
        var r := Activate(u, next);
        forall k | 0 <= k < |r.slots| ensures SlotOk(r, k) { assert SlotOk(t, k); }
      }
    }
  }

  lemma RegisterKeeps(s: State, t: State, i: int, base: nat)
    requires Inv(s, base) && InRange(s, i) && Runnable(t, i) && (i == s.selected ==> t == s)
    requires t == SetSlot(s, i, t.slots[i]) && t.slots[i].tid == Handle(i)
    ensures Inv(Register(t, i), base)
  {
    var r := Register(t, i);
    assert s.selected >= 0 && s.selected != i ==> Runnable(t, s.selected) && !t.slots[s.selected].blocked;
    forall k | 0 <= k < |r.slots| ensures SlotOk(r, k) { assert SlotOk(s, k); }
  }

  lemma QuantumBound(base: nat, weight: nat)
    requires base > 0 && weight <= 40
    ensures 1 <= Quantum(base, weight) <= 2 * base
  {
    assert base * weight <= base * 40;
  }

  lemma TickKeeps(s: State, running: int, trap: bool, weight: nat, base: nat)
    requires Inv(s, base) && Allowed(s, Tick(running, trap, weight))
    ensures Inv(TickStep(s, running, trap, weight, base), base)
  {
    var r := TickStep(s, running, trap, weight, base);
    if trap && Runnable(s, running) {
      QuantumBound(base, weight);
      assert SlotOk(s, running);
    }
    forall k | 0 <= k < |r.slots| ensures SlotOk(r, k) { assert SlotOk(s, k); }
  }

  lemma CoreKeeps(s: State, e: Event, base: nat)
    requires Inv(s, base) && Allowed(s, e) && (e.Publish? || e.Clear?)
    ensures Inv(Step(s, e, base), base)
  {
    var r := Step(s, e, base);
    forall k | 0 <= k < |r.slots| ensures SlotOk(r, k) { assert SlotOk(s, k); }
  }

  lemma StepKeeps(s: State, e: Event, base: nat)
    requires Inv(s, base) && Allowed(s, e)
    ensures Inv(Step(s, e, base), base)
  {
    match e
    case Publish(i, gen) => CoreKeeps(s, e, base);
    case Clear(i) => CoreKeeps(s, e, base);
    case Spawn(i, gen, ok) =>
      if InRange(s, i) && gen != 0 && s.slots[i].tid == 0 && ok {
        assert SlotOk(s, i);
        RegisterKeeps(s, Created(s, i, gen), i, base);
      }
    case Resume(i, gen, ok) =>
      if InRange(s, i) && gen != 0 && s.slots[i].tid != 0 && s.slots[i].gen == gen && ok {
        assert SlotOk(s, i);
        RegisterKeeps(s, s, i, base);
      }
    case Park(i, gen) => ParkKeeps(s, i, gen, base);
    case Abort(i, gen) => AbortKeeps(s, i, gen, base);
    case Tick(running, trap, weight) => TickKeeps(s, running, trap, weight, base);
    case Wake =>
      var r := Step(s, e, base);
      forall k | 0 <= k < |r.slots| ensures SlotOk(r, k) { assert SlotOk(s, k); }
    case Rotate => if s.awake { RotateKeeps(s, base); }
  }

  // ---- runs -------------------------------------------------------------------------------------

  function Run(s: State, es: seq<Event>, base: nat): State
    decreases |es|
  {
    if es == [] then s else Run(Step(s, es[0], base), es[1..], base)
  }

  predicate AllAllowed(s: State, es: seq<Event>, base: nat)
    decreases |es|
  {
    es == [] || (Allowed(s, es[0]) && AllAllowed(Step(s, es[0], base), es[1..], base))
  }

  lemma {:induction false} RunKeeps(s: State, es: seq<Event>, base: nat)
    requires Inv(s, base) && AllAllowed(s, es, base)
    ensures Inv(Run(s, es, base), base)
    decreases |es|
  {
    if es != [] {
      StepKeeps(s, es[0], base);
      RunKeeps(Step(s, es[0], base), es[1..], base);
    }
  }

  /** In every reachable state at most one guest is natively ready and it is the selected one; if
      any guest waits, some runnable guest is selected; a pending request names exactly the guest task and
      generation that are selected now, and the scheduler task is due to run. */
  lemma ReachableSafe(n: nat, es: seq<Event>, base: nat)
    requires n > 0 && base > 0 && AllAllowed(Init(n), es, base)
    ensures var s := Run(Init(n), es, base);
            && (forall i :: 0 <= i < |s.slots| && s.slots[i].native == Ready ==> i == s.selected)
            && ((exists i :: Waiting(s, i)) ==> Runnable(s, s.selected) && s.slots[s.selected].native == Ready)
            && (s.pending ==>
                InRange(s, s.selected) && s.owner == s.slots[s.selected].tid && s.ownerGen == s.slots[s.selected].gen
                && (s.sem || s.awake))
  {
    hide Run, AllAllowed, Init;
    InitInv(n, base);
    RunKeeps(Init(n), es, base);
    var s := Run(Init(n), es, base);
    forall i | 0 <= i < |s.slots| && s.slots[i].native == Ready ensures i == s.selected { assert SlotOk(s, i); }
  }

  // ---- inside a spawn ------------------------------------------------------------------------

  /** Between making a task and registering it, only that task can be natively ready beside the
      selected guest; it cannot run before the coordinator that spawns it is done. */
  lemma CreatedSafe(s: State, i: int, gen: nat, base: nat)
    requires Inv(s, base) && InRange(s, i) && s.slots[i].tid == 0
    ensures forall k :: 0 <= k < |s.slots| && Created(s, i, gen).slots[k].native == Ready ==> k == s.selected || k == i
    ensures s.selected != i
  {
    assert SlotOk(s, i);
    forall k | 0 <= k < |s.slots| && Created(s, i, gen).slots[k].native == Ready ensures k == s.selected || k == i {
      assert SlotOk(s, k);
    }
  }

  lemma TickCommutes(s: State, i: int, gen: nat, running: int, trap: bool, weight: nat, base: nat)
    requires InRange(s, i) && s.slots[i] == FREE && running != i
    ensures TickStep(Created(s, i, gen), running, trap, weight, base) ==
        Created(TickStep(s, running, trap, weight, base), i, gen)
  {
    var t := Created(s, i, gen);
    assert forall k :: k != i ==> Waiting(t, k) == Waiting(s, k);
    assert !Waiting(t, i) && !Waiting(s, i);
    assert OtherWaits(t, running) == OtherWaits(s, running);
  }

  /** Spawning is one step to everybody else: ticks that fall between the making and the registering
      of a task might as well have come before the spawn. */
  lemma {:induction false} SpawnAtomic(s: State, i: int, gen: nat, ts: seq<Event>, base: nat)
    requires InRange(s, i) && s.slots[i] == FREE && gen != 0
    requires forall k :: 0 <= k < |ts| ==> ts[k].Tick? && ts[k].running != i
    ensures InRange(Run(s, ts, base), i) && |Run(Created(s, i, gen), ts, base).slots| == |s.slots|
    ensures Register(Run(Created(s, i, gen), ts, base), i) == SpawnStep(Run(s, ts, base), i, gen, true)
    decreases |ts|
  {
    if ts != [] {
      TickCommutes(s, i, gen, ts[0].running, ts[0].trap, ts[0].weight, base);
      SpawnAtomic(Step(s, ts[0], base), i, gen, ts[1..], base);
    }
  }

  /** The scheduler with spawns taken in two steps; spawning is the slot whose task is made and not
      yet registered, or -1. */
  datatype Fine = Fine(s: State, spawning: int, gen: nat)

  datatype FineEvent =
    | Whole(e: Event)
    | Make(i: int, gen: nat)  // the RTOS makes a task
    | Enrol                   // the port registers it

  function FineStep(f: Fine, e: FineEvent, base: nat): Fine {
    match e
    case Whole(x) => if f.spawning < 0 || x.Tick? then f.(s := Step(f.s, x, base)) else f
    case Make(i, gen) =>
      if f.spawning < 0 && InRange(f.s, i) && gen != 0 && f.s.slots[i].tid == 0 then Fine(Created(f.s, i, gen), i, gen)
      else f
    case Enrol => if InRange(f.s, f.spawning) then Fine(Register(f.s, f.spawning), -1, 0) else f
  }

  /** The coordinator, which spawns, outranks the scheduler task and every guest: while a spawn is under
      way only ticks come in, and none of them finds the new guest running. */
  predicate FineAllowed(f: Fine, e: FineEvent) {
    match e
    case Whole(x) => Allowed(f.s, x) && (f.spawning >= 0 ==> x.Tick? && x.running != f.spawning)
    case Make(i, gen) => InRange(f.s, i) ==> f.s.core[i] == Core(true, gen)
    case Enrol => true
  }

  /** The state before the spawn under way. */
  function Coarse(f: Fine): State { if InRange(f.s, f.spawning) then SetSlot(f.s, f.spawning, FREE) else f.s }

  ghost predicate FineInv(f: Fine, base: nat) {
    && Inv(Coarse(f), base) && f.spawning < |f.s.slots|
    && (f.spawning >= 0 ==> && f.gen != 0 && InRange(f.s, f.spawning) && f.s.core[f.spawning] == Core(true, f.gen)
                            && f.s == Created(Coarse(f), f.spawning, f.gen))
  }

  lemma FineKeeps(f: Fine, e: FineEvent, base: nat)
    requires FineInv(f, base) && FineAllowed(f, e)
    ensures FineInv(FineStep(f, e, base), base)
  {
    var b := Coarse(f);
    match e {
      case Whole(x) =>
        if f.spawning < 0 {
          StepKeeps(b, x, base);
        } else {
          TickCommutes(b, f.spawning, f.gen, x.running, x.trap, x.weight, base);
          StepKeeps(b, x, base);
        }
      case Make(i, gen) =>
        if f.spawning < 0 && InRange(b, i) && gen != 0 && b.slots[i].tid == 0 {
          assert SlotOk(b, i);
          assert SetSlot(Created(b, i, gen), i, FREE) == b;
        }
      case Enrol =>
        if f.spawning >= 0 { StepKeeps(b, Spawn(f.spawning, f.gen, true), base); }
    }
  }

  function FineRun(f: Fine, es: seq<FineEvent>, base: nat): Fine
    decreases |es|
  {
    if es == [] then f else FineRun(FineStep(f, es[0], base), es[1..], base)
  }

  predicate AllFine(f: Fine, es: seq<FineEvent>, base: nat)
    decreases |es|
  {
    es == [] || (FineAllowed(f, es[0]) && AllFine(FineStep(f, es[0], base), es[1..], base))
  }

  lemma {:induction false} FineRunKeeps(f: Fine, es: seq<FineEvent>, base: nat)
    requires FineInv(f, base) && AllFine(f, es, base)
    ensures FineInv(FineRun(f, es, base), base)
    decreases |es|
  {
    hide FineInv, FineStep, FineAllowed;
    if es != [] {
      FineKeeps(f, es[0], base);
      FineRunKeeps(FineStep(f, es[0], base), es[1..], base);
    }
  }

  /** With spawns in two steps: in every reachable state every natively ready guest is the selected one
      or the one being spawned, which waits for nobody; some runnable guest is selected and ready
      whenever one waits; a pending request names exactly the guest task and generation selected now. */
  lemma FineSafe(n: nat, es: seq<FineEvent>, base: nat)
    requires n > 0 && base > 0 && AllFine(Fine(Init(n), -1, 0), es, base)
    ensures var f := FineRun(Fine(Init(n), -1, 0), es, base);
            var s := f.s;
            && (forall i :: 0 <= i < |s.slots| && s.slots[i].native == Ready ==> i == s.selected || i == f.spawning)
            && !Waiting(s, f.spawning)
            && ((exists i :: Waiting(s, i)) ==> Runnable(s, s.selected) && s.slots[s.selected].native == Ready)
            && (s.pending ==> InRange(s, s.selected) && s.owner == s.slots[s.selected].tid
                              && s.ownerGen == s.slots[s.selected].gen && (s.sem || s.awake))
  {
    hide FineRun, AllFine, Init, FineStep, FineAllowed;
    InitInv(n, base);
    FineRunKeeps(Fine(Init(n), -1, 0), es, base);
    FineSound(FineRun(Fine(Init(n), -1, 0), es, base), base);
  }

  lemma FineSound(f: Fine, base: nat)
    requires FineInv(f, base)
    ensures var s := f.s;
            && (forall i :: 0 <= i < |s.slots| && s.slots[i].native == Ready ==> i == s.selected || i == f.spawning)
            && !Waiting(s, f.spawning)
            && ((exists i :: Waiting(s, i)) ==> Runnable(s, s.selected) && s.slots[s.selected].native == Ready)
            && (s.pending ==> InRange(s, s.selected) && s.owner == s.slots[s.selected].tid
                              && s.ownerGen == s.slots[s.selected].gen && (s.sem || s.awake))
  {
    var s, b := f.s, Coarse(f);
    assert f.spawning >= 0 ==> SlotOk(b, f.spawning) && b.slots[f.spawning] == FREE;
    forall i | 0 <= i < |s.slots| && s.slots[i].native == Ready ensures i == s.selected || i == f.spawning {
      assert SlotOk(b, i);
    }
    forall i | Waiting(s, i) ensures i != f.spawning && Waiting(b, i) { assert SlotOk(b, i); }
  }

  // ---- stale requests -----------------------------------------------------------------------------

  /** With no pending request the scheduler task changes no slot, no selection and no budget. */
  lemma StaleRotation(s: State, base: nat)
    requires Inv(s, base) && !s.pending
    ensures RotateStep(s) == s.(awake := false, ownerGen := 0)
  {
    if Runnable(s, s.selected) {
      assert SlotOk(s, s.selected);
    }
  }

  /** Parking or aborting the requested task cancels the request. */
  lemma LeavingCancels(s: State, e: Event, base: nat)
    requires Inv(s, base) && s.pending && InRange(s, s.selected)
    requires e == Park(s.selected, s.slots[s.selected].gen) || e == Abort(s.selected, s.slots[s.selected].gen)
    ensures !Step(s, e, base).pending
  {
    var t := Step(s, e, base);
    var u := if e.Park? then SetSlot(s, s.selected, s.slots[s.selected].(blocked := false, native := Suspended))
        else SetSlot(s, s.selected, FREE);
    assert t == HandOver(u, s.selected, true);
  }

  /** A request that is still pending has had its task selected, in one incarnation, ever since. */
  lemma PendingPins(s: State, e: Event, base: nat)
    requires Inv(s, base) && Allowed(s, e) && s.pending && Step(s, e, base).pending
    ensures var t := Step(s, e, base);
            t.selected == s.selected && InRange(s, s.selected) && InRange(t, s.selected)
            && t.slots[s.selected].tid == s.slots[s.selected].tid && t.slots[s.selected].gen == s.slots[s.selected].gen
  {
    hide FindNext;
    assert SlotOk(s, s.selected);
    match e {
      case Park(i, gen) => if i == s.selected && gen == s.slots[i].gen { LeavingCancels(s, e, base); }
      case Abort(i, gen) => if i == s.selected && gen == s.slots[i].gen { LeavingCancels(s, e, base); }
      case _ =>
    }
  }

  lemma {:induction false} PendingPinsRun(s: State, es: seq<Event>, base: nat)
    requires Inv(s, base) && AllAllowed(s, es, base)
    requires forall k :: 0 <= k <= |es| ==> Run(s, es[..k], base).pending
    ensures var t := Run(s, es, base);
            t.selected == s.selected && InRange(s, s.selected) && InRange(t, s.selected)
            && t.slots[s.selected].tid == s.slots[s.selected].tid && t.slots[s.selected].gen == s.slots[s.selected].gen
    decreases |es|
  {
    assert es[..0] == [] && Run(s, [], base).pending;
    if es != [] {
      var t := Step(s, es[0], base);
      assert es[..1] == [es[0]] && [es[0]][1..] == [] && Run(s, es[..1], base) == t;
      StepKeeps(s, es[0], base);
      PendingPins(s, es[0], base);
      forall k | 0 <= k <= |es| - 1 ensures Run(t, es[1..][..k], base).pending {
        assert es[..k + 1][1..] == es[1..][..k];
        assert Run(s, es[..k + 1], base).pending;
      }
      PendingPinsRun(t, es[1..], base);
    }
  }

  // ---- bounded waiting: selection changes ------------------------------------------------------------

  lemma {:induction false} FirstCloser(s: State, a: int, ignore: int, n: nat, g: int)
    requires 0 <= a < |s.slots| && Waiting(s, g) && g != ignore && 1 <= n <= Dist(|s.slots|, a, g)
    ensures var f := FindFrom(s, a, ignore, n);
            0 <= f < |s.slots| && Dist(|s.slots|, a, f) <= Dist(|s.slots|, a, g)
    decreases Dist(|s.slots|, a, g) - n
  {
    NthBack(s, a, n);
    NthDist(s, a, g);
    if n < Dist(|s.slots|, a, g) {
      FirstCloser(s, a, ignore, n + 1, g);
    }
  }

  lemma DistSplits(n: nat, a: int, f: int, g: int)
    requires 0 <= a < n && 0 <= f < n && 0 <= g < n && f != g && g != a && Dist(n, a, f) <= Dist(n, a, g)
    ensures Dist(n, f, g) < Dist(n, a, g) || f == a
  {
  }

  lemma HandOverCloser(s: State, i: int, g: int)
    requires InRange(s, i) && Waiting(s, g) && g != i
    ensures var t := HandOver(s, i, true);
            t.selected == g || (InRange(s, t.selected) && Dist(|s.slots|, t.selected, g) < Dist(|s.slots|, i, g))
  {
    var t := ResetBudget(CancelRotation(s.(selected := -1)));
    assert Waiting(t, g);
    NthDist(t, i, g);
    FirstCloser(t, i, i, 1, g);
    var f := FindNext(t, i, i);
    if f != g {
      DistSplits(|s.slots|, i, f, g);
    }
  }

  lemma RotateCloser(s: State, g: int, base: nat)
    requires Inv(s, base) && Waiting(s, g) && s.pending
    ensures var t := RotateStep(s);
            t.selected != s.selected && InRange(s, s.selected)
            && (t.selected == g
                || (InRange(s, t.selected) && Dist(|s.slots|, t.selected, g) < Dist(|s.slots|, s.selected, g)))
  {
    var t := CancelRotation(s).(awake := false);
    assert Waiting(t, g) && SlotOk(s, s.selected);
    NthDist(t, s.selected, g);
    FirstCloser(t, s.selected, -1, 1, g);
    var f := FindNext(t, s.selected, -1);
    if f != g {
      DistSplits(|s.slots|, s.selected, f, g);
    }
  }

  /** While g waits, each change of selection brings the turn strictly closer to it. */
  lemma ChangeCloser(s: State, e: Event, g: int, base: nat)
    requires Inv(s, base) && Allowed(s, e) && Waiting(s, g) && Waiting(Step(s, e, base), g)
    requires Step(s, e, base).selected != s.selected
    ensures InRange(s, s.selected) && InRange(s, Step(s, e, base).selected)
    ensures Dist(|s.slots|, Step(s, e, base).selected, g) < Dist(|s.slots|, s.selected, g)
  {
    StepKeeps(s, e, base);
    assert SlotOk(s, s.selected) && SlotOk(s, g);
    hide FindNext, Inv;
    match e {
      case Park(i, gen) =>
        HandOverCloser(SetSlot(s, i, s.slots[i].(blocked := false, native := Suspended)), i, g);
      case Abort(i, gen) =>
        HandOverCloser(SetSlot(s, i, FREE), i, g);
      case Rotate =>
        if s.pending { RotateCloser(s, g, base); } else { StaleRotation(s, base); }
      case _ =>
    }
  }

  /** Selection changes along a run. */
  function Changes(s: State, es: seq<Event>, base: nat): nat
    decreases |es|
  {
    if es == [] then 0
    else
      var t := Step(s, es[0], base);
      (if t.selected != s.selected then 1 else 0) + Changes(t, es[1..], base)
  }

  predicate AlwaysWaits(s: State, es: seq<Event>, g: int, base: nat)
    decreases |es|
  {
    Waiting(s, g) && (es == [] || AlwaysWaits(Step(s, es[0], base), es[1..], g, base))
  }

  /** Waiting ends only by being selected or by leaving. */
  lemma WaitEnds(s: State, e: Event, g: int, base: nat)
    requires Inv(s, base) && Allowed(s, e) && Waiting(s, g) && !Waiting(Step(s, e, base), g)
    ensures Step(s, e, base).selected == g || e == Park(g, s.slots[g].gen) || e == Abort(g, s.slots[g].gen)
  {
    hide FindNext;
    assert SlotOk(s, g) && s.selected >= 0;
    match e {
      case Park(i, gen) =>
        if i != g { LeaveOther(s, SetSlot(s, i, s.slots[i].(blocked := false, native := Suspended)), i, g); }
      case Abort(i, gen) => if i != g && InRange(s, i) { LeaveOther(s, SetSlot(s, i, FREE), i, g); }
      case _ =>
    }
  }

  lemma LeaveOther(s: State, t: State, i: int, g: int)
    requires Waiting(s, g) && InRange(s, i) && i != g && |t.slots| == |s.slots| && t == SetSlot(s, i, t.slots[i])
    ensures var r := HandOver(t, i, s.selected == i); Waiting(r, g) || r.selected == g
  {
    var u := ResetBudget(CancelRotation(t.(selected := -1)));
  }

  /** As long as g waits, selection changes and remaining distance add up to at most the first
      distance. */
  lemma {:induction false} WaitingBudget(s: State, es: seq<Event>, g: int, base: nat)
    requires Inv(s, base) && AllAllowed(s, es, base) && AlwaysWaits(s, es, g, base)
    ensures var t := Run(s, es, base);
            && InRange(s, s.selected) && InRange(s, g) && g != s.selected && InRange(s, t.selected)
               && |t.slots| == |s.slots|
            && Changes(s, es, base) + Dist(|s.slots|, t.selected, g) <= Dist(|s.slots|, s.selected, g)
    decreases |es|
  {
    assert SlotOk(s, g);
    if es != [] {
      var t := Step(s, es[0], base);
      StepKeeps(s, es[0], base);
      WaitingBudget(t, es[1..], g, base);
      if t.selected != s.selected {
        ChangeCloser(s, es[0], g, base);
      }
    }
  }

  /** Bounded waiting, in turns: a guest still waiting has seen at most NSLOT - 2 selection changes,
      so the (NSLOT - 1)-th at the latest selects it. */
  lemma BoundedWaiting(s: State, es: seq<Event>, g: int, base: nat)
    requires Inv(s, base) && AllAllowed(s, es, base) && AlwaysWaits(s, es, g, base)
    ensures Changes(s, es, base) + 2 <= |s.slots|
  {
    WaitingBudget(s, es, g, base);
    assert SlotOk(s, g);
  }

  // ---- bounded waiting: ticks per change ------------------------------------------------------------

  /** Ticks the selected guest may still run before a rotation is requested. */
  function Left(s: State, base: nat): int {
    if s.pending then 0
    else if InRange(s, s.selected) && s.budgetOwner == s.slots[s.selected].tid then 2 * base - s.ticks
    else 2 * base
  }

  /** A tick that finds the selected guest running. */
  predicate Counts(s: State, e: Event) { e.Tick? && e.running == s.selected && s.selected >= 0 }

  /** A tick with the trap inactive: it forgets what was counted. */
  predicate TrapOff(e: Event) { e.Tick? && !e.trap }

  /** Counted ticks such a tick can give back. */
  function Refund(e: Event, base: nat): nat { if TrapOff(e) then 2 * base else 0 }

  /** Without a selection change every counted tick brings the request closer, and nothing puts it
      off but a tick with the trap inactive. */
  lemma TickCloser(s: State, e: Event, g: int, base: nat)
    requires Inv(s, base) && Allowed(s, e) && Waiting(s, g) && Waiting(Step(s, e, base), g)
    requires Step(s, e, base).selected == s.selected && !Step(s, e, base).pending
    ensures Left(Step(s, e, base), base) + (if Counts(s, e) then 1 else 0) <= Left(s, base) + Refund(e, base)
    ensures !s.pending
  {
    assert SlotOk(s, s.selected) && SlotOk(s, g) && g != s.selected;
    assert OtherWaits(s, s.selected);
    hide FindNext;
    match e {
      case Tick(running, trap, weight) =>
        if running >= 0 { QuantumBound(base, weight); assert SlotOk(s, running); }
      case Park(i, gen) =>
        if i == s.selected && gen == s.slots[i].gen { LeavingChanges(s, e, base); }
      case Abort(i, gen) =>
        if i == s.selected && gen == s.slots[i].gen { LeavingChanges(s, e, base); }
      case Rotate =>
        if s.awake { if s.pending { RotateCloser(s, g, base); } else { StaleRotation(s, base); } }
      case _ =>
    }
  }

  lemma LeavingChanges(s: State, e: Event, base: nat)
    requires Inv(s, base) && InRange(s, s.selected)
    requires e == Park(s.selected, s.slots[s.selected].gen) || e == Abort(s.selected, s.slots[s.selected].gen)
    ensures Step(s, e, base).selected != s.selected
  {
    var u := if e.Park? then SetSlot(s, s.selected, s.slots[s.selected].(blocked := false, native := Suspended))
        else SetSlot(s, s.selected, FREE);
    assert Step(s, e, base) == HandOver(u, s.selected, true);
    var t := ResetBudget(CancelRotation(u.(selected := -1)));
  }

  /** Counted ticks along a run. */
  function Counted(s: State, es: seq<Event>, base: nat): nat
    decreases |es|
  {
    if es == [] then 0
    else (if Counts(s, es[0]) then 1 else 0) + Counted(Step(s, es[0], base), es[1..], base)
  }

  /** Ticks with the trap inactive along a run. */
  function Offs(es: seq<Event>): nat { if es == [] then 0 else (if TrapOff(es[0]) then 1 else 0) + Offs(es[1..]) }

  lemma {:induction false} OffsStep(es: seq<Event>, base: nat)
    requires es != []
    ensures Offs(es) * (2 * base) == Refund(es[0], base) + Offs(es[1..]) * (2 * base)
  {
    var n := Offs(es[1..]);
    assert (1 + n) * (2 * base) == 2 * base + n * (2 * base);
  }

  /** The selection never changes and no request is pending after any step. */
  predicate Unrequested(s: State, es: seq<Event>, base: nat)
    decreases |es|
  {
    es == [] || (var t := Step(s, es[0], base);
                 t.selected == s.selected && !t.pending && Unrequested(t, es[1..], base))
  }

  lemma {:induction false} TickBudget(s: State, es: seq<Event>, g: int, base: nat)
    requires Inv(s, base) && AllAllowed(s, es, base) && AlwaysWaits(s, es, g, base) && Unrequested(s, es, base)
    ensures Counted(s, es, base) + Left(Run(s, es, base), base) <= Left(s, base) + Offs(es) * (2 * base)
    decreases |es|
  {
    if es != [] {
      StepKeeps(s, es[0], base);
      TickCloser(s, es[0], g, base);
      TickBudget(Step(s, es[0], base), es[1..], g, base);
      OffsStep(es, base);
    }
  }

  /** Bounded waiting, in ticks: while a guest waits, fewer than 2 * base_ticks ticks can find the
      selected guest running before a rotation away from it is requested, for any weights; each tick
      with the trap inactive starts the count again. */
  lemma RequestInTime(s: State, es: seq<Event>, g: int, base: nat)
    requires Inv(s, base) && !s.pending && AllAllowed(s, es, base) && AlwaysWaits(s, es, g, base)
        && Unrequested(s, es, base)
    ensures Counted(s, es, base) < (1 + Offs(es)) * (2 * base)
  {
    TickBudget(s, es, g, base);
    RunKeeps(s, es, base);
    StillUnrequested(s, es, base);
    LeftRange(Run(s, es, base), base);
    LeftRange(s, base);
    assert (1 + Offs(es)) * (2 * base) == 2 * base + Offs(es) * (2 * base);
  }

  lemma {:induction false} StillUnrequested(s: State, es: seq<Event>, base: nat)
    requires !s.pending && Unrequested(s, es, base)
    ensures !Run(s, es, base).pending
    decreases |es|
  {
    if es != [] {
      StillUnrequested(Step(s, es[0], base), es[1..], base);
    }
  }

  /** A pending request is served: the scheduler task, which is due, moves the selection on. */
  lemma RequestServed(s: State, g: int, base: nat)
    requires Inv(s, base) && s.pending && Waiting(s, g)
    ensures s.sem || s.awake
    ensures RotateStep(s).selected != s.selected && !RotateStep(s).pending
  {
    RotateCloser(s, g, base);
  }

  /** Selected-guest ticks g can still see before its own turn: whole quanta for the slots between,
      plus what is left of the current one. */
  function Patience(s: State, g: int, base: nat): int
    requires InRange(s, s.selected) && InRange(s, g)
  {
    (Dist(|s.slots|, s.selected, g) - 1) * (2 * base) + Left(s, base)
  }

  lemma LeftRange(s: State, base: nat)
    requires Inv(s, base)
    ensures 0 <= Left(s, base) <= 2 * base && (!s.pending ==> Left(s, base) >= 1)
  {
  }

  lemma Scale(a: int, b: int, c: int)
    requires a + 1 <= b && c >= 0
    ensures (a - 1) * c + c <= (b - 1) * c
  {
    MulMono(a, b - 1, c);
  }

  lemma SelectedNow(s: State, g: int, base: nat)
    requires Inv(s, base) && Waiting(s, g)
    ensures InRange(s, s.selected) && InRange(s, g) && g != s.selected
  {
    assert SlotOk(s, g);
  }

  /** No step adds to the patience, and every counted tick uses some up; the scheduler task outranks
      guests, so no guest is found running while a request is pending. */
  lemma PatienceFalls(s: State, e: Event, g: int, base: nat)
    requires Inv(s, base) && Allowed(s, e) && (Counts(s, e) ==> !s.pending)
    requires Waiting(s, g) && Waiting(Step(s, e, base), g)
    ensures InRange(s, s.selected) && InRange(Step(s, e, base), Step(s, e, base).selected) && InRange(s, g)
    ensures InRange(Step(s, e, base), g)
    ensures Patience(Step(s, e, base), g, base) + (if Counts(s, e) then 1 else 0) <=
            Patience(s, g, base) + Refund(e, base)
  {
    hide Step, Inv, Waiting, Left, Allowed;
    var t := Step(s, e, base);
    StepKeeps(s, e, base);
    SelectedNow(s, g, base);
    SelectedNow(t, g, base);
    LeftRange(s, base);
    LeftRange(t, base);
    if t.selected != s.selected {
      ChangeCloser(s, e, g, base);
      Scale(Dist(|s.slots|, t.selected, g), Dist(|s.slots|, s.selected, g), 2 * base);
      if e.Tick? { TickSelects(s, e, base); }
    } else if !t.pending {
      TickCloser(s, e, g, base);
    } else {
      PendingLeft(t, base);
      if s.pending { PendingLeft(s, base); }
    }
  }

  lemma TickSelects(s: State, e: Event, base: nat)
    requires e.Tick?
    ensures Step(s, e, base).selected == s.selected
  {
  }

  lemma PendingLeft(s: State, base: nat)
    requires s.pending
    ensures Left(s, base) == 0
  {
  }

  predicate Prompt(s: State, es: seq<Event>, base: nat)
    decreases |es|
  {
    es == [] || ((Counts(s, es[0]) ==> !s.pending) && Prompt(Step(s, es[0], base), es[1..], base))
  }

  lemma {:induction false} PatienceRun(s: State, es: seq<Event>, g: int, base: nat)
    requires Inv(s, base) && AllAllowed(s, es, base) && AlwaysWaits(s, es, g, base) && Prompt(s, es, base)
    ensures InRange(s, s.selected) && InRange(s, g)
    ensures Counted(s, es, base) <= Patience(s, g, base) + Offs(es) * (2 * base)
    decreases |es|
  {
    hide Step, Inv, Waiting, Left, Allowed, Patience;
    SelectedNow(s, g, base);
    if es != [] {
      StepKeeps(s, es[0], base);
      PatienceFalls(s, es[0], g, base);
      PatienceRun(Step(s, es[0], base), es[1..], g, base);
      OffsStep(es, base);
    } else {
      PatienceLeft(s, g, base);
    }
  }

  lemma PatienceLeft(s: State, g: int, base: nat)
    requires Inv(s, base) && Waiting(s, g)
    ensures InRange(s, s.selected) && InRange(s, g) && 0 <= Patience(s, g, base)
  {
    hide Inv, Waiting, Left;
    SelectedNow(s, g, base);
    LeftRange(s, base);
    MulMono(0, Dist(|s.slots|, s.selected, g) - 1, 2 * base);
  }

  lemma MulMono(a: int, b: int, c: int)
    requires a <= b && c >= 0
    ensures a * c <= b * c
  {
  }

  /** The whole waiting bound: a guest that is still waiting has seen at most (NSLOT - 1) * 2 *
      base_ticks ticks that found some selected guest running, and as many as one whole quantum more
      for every tick with the trap inactive. */
  lemma WaitingTicks(s: State, es: seq<Event>, g: int, base: nat)
    requires Inv(s, base) && AllAllowed(s, es, base) && AlwaysWaits(s, es, g, base) && Prompt(s, es, base)
    ensures Counted(s, es, base) <= (|s.slots| - 1 + Offs(es)) * (2 * base)
  {
    hide Inv, Waiting, Left, AllAllowed, Prompt, Counted;
    PatienceRun(s, es, g, base);
    SelectedNow(s, g, base);
    LeftRange(s, base);
    var d := Dist(|s.slots|, s.selected, g);
    assert (d - 1) * (2 * base) + 2 * base == d * (2 * base);
    MulMono(d, |s.slots| - 1, 2 * base);
    assert (|s.slots| - 1 + Offs(es)) * (2 * base) == (|s.slots| - 1) * (2 * base) + Offs(es) * (2 * base);
  }

  // ---- the port's code ---------------------------------------------------------------------------------

  class Port {
    var slots: seq<Slot>
    var core: seq<Core>
    var selected: int
    var pending: bool
    var owner: nat
    var ownerGen: nat
    var ticks: nat
    var budgetOwner: nat
    var sem: bool
    var awake: bool
    const base: nat

    ghost function Abs(): State
      reads this
    {
      State(slots, core, selected, pending, owner, ownerGen, ticks, budgetOwner, sem, awake)
    }

    constructor (n: nat, baseTicks: nat)
      requires n > 0 && baseTicks > 0
      ensures Abs() == Init(n) && base == baseTicks && Inv(Abs(), base)
    {
      slots, core := seq(n, _ => FREE), seq(n, _ => Core(false, 0));
      selected, pending, owner, ownerGen := -1, false, 0, 0;
      ticks, budgetOwner, sem, awake := 0, 0, false, false;
      base := baseTicks;
      new;
      InitInv(n, base);
    }

    predicate SlotRunnable(i: int)
      reads this
      ensures SlotRunnable(i) == Runnable(Abs(), i)
    {
      && 0 <= i < |slots| && |core| == |slots| && slots[i].tid != 0 && slots[i].gen != 0
      && core[i].runnable && core[i].gen == slots[i].gen
    }

    method FindNextLocked(after: int, ignore: int) returns (r: int)
      requires |slots| > 0 && -1 <= after
      ensures r == FindNext(Abs(), after, ignore)
    {
      ghost var s := Abs();
      var n := 1;
      while n <= |slots|
        invariant 1 <= n <= |slots| + 1
        invariant FindFrom(s, after, ignore, n) == FindFrom(s, after, ignore, 1)
      {
        var i := (after + n + |slots|) % |slots|;
        if i != ignore && SlotRunnable(i) && slots[i].blocked {
          return i;
        }
        n := n + 1;
      }
      r := -1;
    }

    method ResetTickBudget()
      modifies this`ticks, this`budgetOwner
      ensures Abs() == ResetBudget(old(Abs()))
    {
      ticks, budgetOwner := 0, 0;
    }

    method CancelRotationLocked()
      modifies this`pending, this`owner, this`ownerGen
      ensures Abs() == CancelRotation(old(Abs()))
    {
      owner, ownerGen, pending := 0, 0, false;
    }

    method ActivateLocked(i: int)
      requires i < |slots|
      modifies this
      ensures Abs() == Activate(old(Abs()), i)
    {
      if i < 0 {
        return;
      }
      slots := slots[i := slots[i].(blocked := false)];
      selected := i;
      ResetTickBudget();
      slots := slots[i := slots[i].(native := Ready)];
    }

    method RegisterReady(i: int, suspended: bool)
      requires 0 <= i < |slots|
      requires if suspended then slots[i].native == Suspended || i == selected else slots[i].native == Ready
      modifies this
      ensures Abs() == Register(old(Abs()), i)
    {
      if !SlotRunnable(selected) || slots[selected].blocked {
        selected := i;
        slots := slots[i := slots[i].(blocked := false)];
        ResetTickBudget();
        if suspended {
          slots := slots[i := slots[i].(native := Ready)];
        }
      } else if selected != i {
        slots := slots[i := slots[i].(blocked := true)];
        if !suspended {
          slots := slots[i := slots[i].(native := Suspended)];
        }
      }
    }

    /** freertos_spawn_launch and freertos_spawn_common; ok says the RTOS created a task and its
        memory profile was read back correctly. */
    method SpawnSlot(i: int, gen: nat, ok: bool) returns (rc: int)
      requires Inv(Abs(), base) && Allowed(Abs(), Spawn(i, gen, ok))
      modifies this
      ensures Inv(Abs(), base) && Abs() == Step(old(Abs()), Spawn(i, gen, ok), base)
      ensures rc == 0 <==> 0 <= i < |old(slots)| && gen != 0 && old(slots)[i].tid == 0 && ok
    {
      hide Inv;
      StepKeeps(Abs(), Spawn(i, gen, ok), base);
      SlotsOk(Abs(), base);
      if i < 0 || i >= |slots| || gen == 0 || slots[i].tid != 0 || !ok {
        return -1;
      }
      slots := slots[i := slots[i].(gen := gen, tid := Handle(i), native := Ready)];
      RegisterReady(i, false);
      rc := 0;
    }

    /** freertos_spawn_resume of a parked task. */
    method ResumeSlot(i: int, gen: nat, ok: bool) returns (rc: int)
      requires Inv(Abs(), base) && Allowed(Abs(), Resume(i, gen, ok))
      modifies this
      ensures Inv(Abs(), base) && Abs() == Step(old(Abs()), Resume(i, gen, ok), base)
      ensures rc == 0 <==> 0 <= i < |old(slots)| && gen != 0 && old(slots)[i].tid != 0 && old(slots)[i].gen == gen && ok
    {
      hide Inv;
      StepKeeps(Abs(), Resume(i, gen, ok), base);
      SlotsOk(Abs(), base);
      if i < 0 || i >= |slots| || gen == 0 {
        return -1;
      }
      assert SlotOk(Abs(), i);
      if slots[i].tid == 0 || slots[i].gen != gen || !ok {
        return -1;
      }
      RegisterReady(i, true);
      rc := 0;
    }

    /** What park and abort do when the slot they remove was the selected one. */
    method HandOverLocked(i: int)
      requires 0 <= i < |slots|
      modifies this
      ensures Abs() == HandOver(old(Abs()), i, true)
    {
      hide FindNext;
      selected := -1;
      CancelRotationLocked();
      ResetTickBudget();
      var next := FindNextLocked(i, i);
      ActivateLocked(next);
    }

    method ParkSlot(i: int, gen: nat) returns (rc: int)
      requires Inv(Abs(), base)
      modifies this
      ensures Inv(Abs(), base) && Abs() == Step(old(Abs()), Park(i, gen), base)
      ensures rc == 0 <==> Runnable(old(Abs()), i) && old(slots)[i].gen == gen
    {
      hide Inv, HandOver;
      StepKeeps(Abs(), Park(i, gen), base);
      SlotsOk(Abs(), base);
      if !SlotRunnable(i) || slots[i].gen != gen {
        return -1;
      }
      assert SlotOk(Abs(), i);
      var was := selected == i;
      if !slots[i].blocked {
        slots := slots[i := slots[i].(native := Suspended)];
      }
      slots := slots[i := slots[i].(blocked := false)];
      assert slots == old(slots)[i := old(slots)[i].(blocked := false, native := Suspended)];
      NoHandOver(Abs(), i);
      if was {
        HandOverLocked(i);
      }
      rc := 0;
    }

    method AbortSlot(i: int, gen: nat) returns (rc: int)
      requires Inv(Abs(), base)
      modifies this
      ensures Inv(Abs(), base) && Abs() == Step(old(Abs()), Abort(i, gen), base)
      ensures rc == 0 <==> 0 <= i < |old(slots)| && (old(slots)[i].tid == 0 || old(slots)[i].gen == gen)
    {
      hide Inv, HandOver;
      StepKeeps(Abs(), Abort(i, gen), base);
      SlotsOk(Abs(), base);
      if i < 0 || i >= |slots| {
        return -1;
      }
      if slots[i].tid != 0 && slots[i].gen != gen {
        return -1;
      }
      var was := selected == i;
      slots := slots[i := FREE];
      NoHandOver(Abs(), i);
      if was {
        HandOverLocked(i);
      }
      rc := 0;
    }

    /** lxp_freertos_tick */
    method OnTick(running: int, trap: bool, weight: nat)
      requires Inv(Abs(), base) && Allowed(Abs(), Tick(running, trap, weight))
      modifies this
      ensures Inv(Abs(), base) && Abs() == Step(old(Abs()), Tick(running, trap, weight), base)
    {
      hide Inv, Quantum;
      ghost var was := Abs();
      StepKeeps(was, Tick(running, trap, weight), base);
      if !trap {
        ResetTickBudget();
        return;
      }
      if !SlotRunnable(running) {
        return;
      }
      if budgetOwner != slots[running].tid {
        budgetOwner := slots[running].tid;
        ticks := 0;
      }
      ticks := ticks + 1;
      if ticks < Quantum(base, weight) {
        return;
      }
      ticks := 0;
      SameWaiters(Abs(), was, running);
      RequestRotation(running);
    }

    /** The scan that requests a rotation when another guest waits. */
    method RequestRotation(running: int)
      requires 0 <= running < |slots|
      modifies this`pending, this`owner, this`ownerGen, this`sem
      ensures Abs() == if OtherWaits(old(Abs()), running) && !old(pending) then
                old(Abs()).(pending := true, owner := slots[running].tid, ownerGen := slots[running].gen, sem := true)
              else old(Abs())
    {
      var i := 0;
      while i < |slots|
        invariant 0 <= i <= |slots| && Abs() == old(Abs())
        invariant forall k :: 0 <= k < i ==> k == running || !Waiting(Abs(), k) || pending
      {
        if i != running && SlotRunnable(i) && slots[i].blocked && !pending {
          assert Waiting(Abs(), i) && OtherWaits(Abs(), running);
          owner, ownerGen, pending, sem := slots[running].tid, slots[running].gen, true, true;
          return;
        }
        i := i + 1;
      }
    }

    /** One turn of freertos_sched_task_entry after its semaphore was given. */
    method ServeRotation()
      requires Inv(Abs(), base) && awake
      modifies this
      ensures Inv(Abs(), base) && Abs() == Step(old(Abs()), Rotate, base)
    {
      hide Inv, FindNext;
      StepKeeps(Abs(), Rotate, base);
      SlotsOk(Abs(), base);
      var requested, generation, current := owner, ownerGen, selected;
      CancelRotationLocked();
      awake := false;
      if SlotRunnable(current) && slots[current].tid == requested && slots[current].gen == generation {
        var next := FindNextLocked(current, -1);
        if next >= 0 {
          slots := slots[current := slots[current].(blocked := true, native := Suspended)];
          ActivateLocked(next);
        }
      }
    }
  }

  lemma SlotsOk(s: State, base: nat)
    requires Inv(s, base)
    ensures |s.slots| > 0 && |s.core| == |s.slots| && -1 <= s.selected < |s.slots|
    ensures forall i :: 0 <= i < |s.slots| ==> SlotOk(s, i)
  {
  }

  lemma SameWaiters(s: State, t: State, current: int)
    requires s.slots == t.slots && s.core == t.core
    ensures OtherWaits(s, current) == OtherWaits(t, current)
  {
    assert forall i :: Waiting(s, i) == Waiting(t, i);
  }

  lemma NoHandOver(s: State, i: int)
    requires |s.slots| > 0
    ensures HandOver(s, i, false) == s
  {
  }
}
