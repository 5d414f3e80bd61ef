/** Who gets a turn at all, and for how long: the guests in play are exactly those that entered and
    have not left, and a guest in play runs its weight's share of ticks before it is asked to yield. */
module SchedLaws {
  import opened SchedModel
  import opened Scheduler

  // ---- who is in play --------------------------------------------------------------------

  /** Slot i has the turn or waits for it. */
  predicate InPlay(s: State, i: int) { InRange(s, i) && (s.selected == i || Waiting(s, i)) }

  /** The port accepts e as the entry of slot i. */
  predicate Enters(s: State, e: Event, i: int) {
    match e
    case Spawn(k, gen, ok) => k == i && InRange(s, i) && gen != 0 && ok && s.slots[i].tid == 0
    case Resume(k, gen, ok) => k == i && InRange(s, i) && gen != 0 && ok && s.slots[i].tid != 0 && s.slots[i].gen == gen
    case _ => false
  }

  /** The port accepts e as the departure of slot i. */
  predicate Leaves(s: State, e: Event, i: int) {
    match e
    case Park(k, gen) => k == i && Runnable(s, i) && s.slots[i].gen == gen
    case Abort(k, gen) => k == i && InRange(s, i) && (s.slots[i].tid == 0 || s.slots[i].gen == gen)
    case _ => false
  }

  /** An entering guest takes a free turn or waits for one, and it takes the turn from nobody. */
  lemma EntryServed(s: State, e: Event, i: int, base: nat)
    requires Inv(s, base) && Allowed(s, e) && Enters(s, e, i)
    ensures var r := Step(s, e, base);
            && (s.selected < 0 ==> r.selected == i && r.slots[i].native == Ready)
            && (s.selected >= 0 ==> r.selected == s.selected)
            && (s.selected >= 0 && s.selected != i ==> Waiting(r, i) && r.slots[i].native == Suspended)
  {
    SlotsOk(s, base);
    assert SlotOk(s, i);
    if s.selected >= 0 { assert SlotOk(s, s.selected); }
  }

  /** One step changes who is in play by an entry or a departure and by nothing else. */
  lemma InPlayStep(s: State, e: Event, i: int, base: nat)
    requires Inv(s, base) && Allowed(s, e)
    ensures InPlay(Step(s, e, base), i) <==> Enters(s, e, i) || (InPlay(s, i) && !Leaves(s, e, i))
  {
    hide Inv, Register, TickStep, RotateStep, HandOver, Waiting;
    SlotsOk(s, base);
    if InRange(s, i) {
      match e {
        case Park(k, gen) =>
          if Leaves(s, e, k) {
            LeaveStep(s, SetSlot(s, k, s.slots[k].(blocked := false, native := Suspended)), k, i, base);
          }
        case Abort(k, gen) => if Leaves(s, e, k) { LeaveStep(s, SetSlot(s, k, FREE), k, i, base); }
        case Rotate => if s.awake { RotateInPlay(s, i, base); }
        case _ => ArriveStep(s, e, i, base);
      }
    }
  }

  lemma ArriveStep(s: State, e: Event, i: int, base: nat)
    requires Inv(s, base) && Allowed(s, e) && InRange(s, i) && !e.Park? && !e.Abort? && !e.Rotate?
    ensures InPlay(Step(s, e, base), i) <==> Enters(s, e, i) || InPlay(s, i)
  {
    hide HandOver, FindNext, RotateStep, Register, TickStep, InPlay, Inv;
    SlotsOk(s, base);
    match e {
      case Spawn(k, gen, ok) =>
        if Enters(s, e, k) {
          CreatedSafe(s, k, gen, base);
          RegisterInPlay(s, Created(s, k, gen), k, i, base);
        }
      case Resume(k, gen, ok) => if Enters(s, e, k) { RegisterInPlay(s, s, k, i, base); }
      case _ => CalmStep(s, e, i, base);
    }
  }

  lemma CalmStep(s: State, e: Event, i: int, base: nat)
    requires Inv(s, base) && Allowed(s, e) && InRange(s, i) && (e.Publish? || e.Clear? || e.Tick? || e.Wake?)
    ensures InPlay(Step(s, e, base), i) <==> InPlay(s, i)
  {
    assert SlotOk(s, i);
  }

  lemma RegisterInPlay(s: State, t: State, k: int, i: int, base: nat)
    requires Inv(s, base) && InRange(s, k) && Runnable(t, k) && (k == s.selected ==> t == s)
    requires t == SetSlot(s, k, t.slots[k])
    ensures InPlay(Register(t, k), i) <==> i == k || InPlay(s, i)
  {
    if s.selected >= 0 { assert SlotOk(s, s.selected); }
    assert forall j :: j != k ==> Waiting(t, j) == Waiting(s, j);
  }

  lemma LeaveStep(s: State, t: State, k: int, i: int, base: nat)
    requires Inv(s, base) && InRange(s, k) && InRange(s, i)
    requires |t.slots| == |s.slots| && t == SetSlot(s, k, t.slots[k]) && !t.slots[k].blocked
    ensures InPlay(HandOver(t, k, s.selected == k), i) <==> InPlay(s, i) && i != k
  {
    hide FindNext, Inv;
    var u := ResetBudget(CancelRotation(t.(selected := -1)));
    assert forall j :: j != k ==> Waiting(u, j) == Waiting(s, j);
    assert FindNext(u, k, k) >= 0 ==> Waiting(u, FindNext(u, k, k));
  }

  lemma RotateInPlay(s: State, i: int, base: nat)
    requires Inv(s, base) && InRange(s, i)
    ensures InPlay(RotateStep(s), i) <==> InPlay(s, i)
  {
    hide FindNext;
    var t := CancelRotation(s).(awake := false);
    assert forall j :: Waiting(t, j) == Waiting(s, j);
    if s.selected >= 0 {
      assert SlotOk(s, s.selected);
      assert FindNext(t, s.selected, -1) >= 0 ==> Waiting(t, FindNext(t, s.selected, -1));
    }
  }

  /** The last accepted entry or departure of slot i along a run was an entry; `now` if there was
      none. */
  predicate Entered(s: State, es: seq<Event>, i: int, now: bool, base: nat)
    decreases |es|
  {
    if es == [] then now
    else Entered(Step(s, es[0], base), es[1..], i, Enters(s, es[0], i) || (now && !Leaves(s, es[0], i)), base)
  }

  lemma {:induction false} InPlayFrom(s: State, es: seq<Event>, i: int, base: nat)
    requires Inv(s, base) && AllAllowed(s, es, base)
    ensures InPlay(Run(s, es, base), i) <==> Entered(s, es, i, InPlay(s, i), base)
    decreases |es|
  {
    hide Inv, InPlay, Enters, Leaves, Step, Allowed;
    if es != [] {
      StepKeeps(s, es[0], base);
      InPlayStep(s, es[0], i, base);
      InPlayFrom(Step(s, es[0], base), es[1..], i, base);
    }
  }

  /** Work conservation over every run: a guest has the turn or waits for it exactly when it has been
      accepted by a spawn or resume and not let go by a park or abort since, and then somebody has the
      turn. */
  lemma WorkConserved(n: nat, es: seq<Event>, i: int, base: nat)
    requires n > 0 && base > 0 && AllAllowed(Init(n), es, base)
    ensures var s := Run(Init(n), es, base);
            && (InPlay(s, i) <==> Entered(Init(n), es, i, false, base))
            && (InPlay(s, i) ==> Runnable(s, s.selected) && s.slots[s.selected].native == Ready)
  {
    InitInv(n, base);
    NobodyYet(n, i);
    hide Run, AllAllowed, Init, Entered;
    InPlayFrom(Init(n), es, i, base);
    RunKeeps(Init(n), es, base);
    var s := Run(Init(n), es, base);
    if InPlay(s, i) { assert SlotOk(s, i); }
  }

  lemma NobodyYet(n: nat, i: int)
    ensures !InPlay(Init(n), i)
  {
  }

  // ---- the share of a weight ---------------------------------------------------------------

  /** The quantum is the least number of ticks, and at least one, whose twentyfold reaches base times
      the weight: nice 0 gets the base, and more weight never gets less. */
  lemma QuantumExact(base: nat, weight: nat)
    requires base > 0
    ensures 20 * Quantum(base, weight) >= base * weight
    ensures forall q: nat :: q >= 1 && 20 * q >= base * weight ==> Quantum(base, weight) <= q
    ensures weight == 20 ==> Quantum(base, weight) == base
  {
  }

  lemma QuantumMono(base: nat, v: nat, w: nat)
    requires base > 0 && v <= w
    ensures Quantum(base, v) <= Quantum(base, w)
  {
    MulMono(v, w, base);
    QuantumExact(base, v);
    QuantumExact(base, w);
  }

  /** k ticks that find guest g running with the same weight. */
  function Ticks(g: int, weight: nat, k: nat): seq<Event> { seq(k, _ => Tick(g, true, weight)) }

  /** Ticks already charged to guest g. */
  function Charged(s: State, g: int): nat
    requires InRange(s, g)
  {
    if s.budgetOwner == s.slots[g].tid then s.ticks else 0
  }

  lemma {:induction false} TicksUsed(s: State, g: int, weight: nat, k: nat, base: nat)
    requires Runnable(s, g) && Charged(s, g) + k < Quantum(base, weight)
    ensures var r := Run(s, Ticks(g, weight, k), base);
            && InRange(r, g) && Charged(r, g) == Charged(s, g) + k
            && r == s.(ticks := r.ticks, budgetOwner := r.budgetOwner)
    decreases k
  {
    hide Quantum;
    if k > 0 {
      assert Ticks(g, weight, k)[0] == Tick(g, true, weight);
      assert Ticks(g, weight, k)[1..] == Ticks(g, weight, k - 1);
      TicksUsed(Step(s, Tick(g, true, weight), base), g, weight, k - 1, base);
    }
  }

  lemma {:induction false} RunSplit(s: State, es: seq<Event>, fs: seq<Event>, base: nat)
    ensures Run(s, es + fs, base) == Run(Run(s, es, base), fs, base)
    decreases |es|
  {
    if es == [] {
      assert es + fs == fs;
    } else {
      assert (es + fs)[0] == es[0] && (es + fs)[1..] == es[1..] + fs;
      RunSplit(Step(s, es[0], base), es[1..], fs, base);
    }
  }

  /** A guest with a new budget runs exactly its quantum while somebody waits: on the tick before,
      nothing is requested; on the last one, its own rotation is, and the scheduler task is woken. */
  lemma FullTurn(s: State, g: int, weight: nat, k: nat, base: nat)
    requires base > 0 && Runnable(s, g) && Charged(s, g) == 0 && !s.pending && OtherWaits(s, g)
    requires k <= Quantum(base, weight)
    ensures var r := Run(s, Ticks(g, weight, k), base);
            && (r.pending <==> k == Quantum(base, weight))
            && r.slots == s.slots && r.selected == s.selected
            && (r.pending ==> r.owner == s.slots[g].tid && r.ownerGen == s.slots[g].gen && r.sem)
  {
    if k < Quantum(base, weight) {
      TicksUsed(s, g, weight, k, base);
    } else {
      TicksUsed(s, g, weight, k - 1, base);
      var t := Run(s, Ticks(g, weight, k - 1), base);
      assert Ticks(g, weight, k) == Ticks(g, weight, k - 1) + [Tick(g, true, weight)];
      RunSplit(s, Ticks(g, weight, k - 1), [Tick(g, true, weight)], base);
      SameWaiters(s, t, g);
      RunOne(t, Tick(g, true, weight), base);
    }
  }

  lemma RunOne(s: State, e: Event, base: nat)
    ensures Run(s, [e], base) == Step(s, e, base)
  {
    assert [e][1..] == [];
  }

  /** Whoever is selected by a step starts with nothing charged. */
  lemma TurnStartsFresh(s: State, e: Event, base: nat)
    requires Inv(s, base) && Allowed(s, e) && Step(s, e, base).selected != s.selected
    ensures var r := Step(s, e, base); r.selected >= 0 ==> InRange(r, r.selected) && Charged(r, r.selected) == 0
  {
    hide FindNext;
    StepKeeps(s, e, base);
  }

  /** A tick with the trap inactive takes back whatever was charged, and no other field changes. */
  lemma TrapOffResets(s: State, running: int, weight: nat, g: int, base: nat)
    requires InRange(s, g)
    ensures var r := Step(s, Tick(running, false, weight), base);
            InRange(r, g) && Charged(r, g) == 0 && r == s.(ticks := 0, budgetOwner := 0)
  {
  }

  /** A request is carried out by the scheduler task's next turn: the guest named gives up the turn to
      the first one waiting after it, and waits itself. */
  lemma RotationServed(s: State, base: nat)
    requires Inv(s, base) && s.pending && OtherWaits(s, s.selected)
    ensures var r := Run(s, [Wake, Rotate], base);
            && r.selected == FindNext(s, s.selected, -1) != s.selected
            && Runnable(r, r.selected) && r.slots[r.selected].native == Ready
            && Waiting(r, s.selected) && !r.pending
  {
    var t := Step(s, Wake, base);
    StepKeeps(s, Wake, base);
    RunSplit(s, [Wake], [Rotate], base);
    assert [Wake] + [Rotate] == [Wake, Rotate];
    RunOne(s, Wake, base);
    RunOne(t, Rotate, base);
    StepKeeps(t, Rotate, base);
    var g :| 0 <= g < |s.slots| && g != s.selected && Waiting(s, g);
    assert SlotOk(s, s.selected);
    FindsSome(s, s.selected, -1, g);
    SameSearch(s, CancelRotation(t).(awake := false), s.selected, -1, 1);
  }

  lemma {:induction false} SameSearch(s: State, t: State, after: int, ignore: int, n: nat)
    requires |s.slots| > 0 && t.slots == s.slots && t.core == s.core
    ensures FindFrom(t, after, ignore, n) == FindFrom(s, after, ignore, n)
    decreases |s.slots| + 1 - n
  {
    if n <= |s.slots| { SameSearch(s, t, after, ignore, n + 1); }
  }

  /** A rotation is requested only by a tick that used up a quantum while somebody else waits, and it
      names the guest the tick found running. */
  lemma RequestNeedsWaiter(s: State, e: Event, base: nat)
    requires !s.pending && Step(s, e, base).pending
    ensures e.Tick? && e.trap && Runnable(s, e.running) && OtherWaits(s, e.running)
    ensures Charged(s, e.running) + 1 >= Quantum(base, e.weight)
    ensures Step(s, e, base).owner == s.slots[e.running].tid && Step(s, e, base).ownerGen == s.slots[e.running].gen
  {
    hide FindNext, Quantum;
  }
}
