/** The asynchronous completion gate: one coordinator and one provider worker, each taking the
    loads, stores and compare-and-swaps of the gate one at a time, in any interleaving. */
module AsyncGate {

  datatype St = Idle | Active | Complete | Retiring

  /** Why a transaction is being retired. */
  datatype How = Aborted | Collected | Dropped

  datatype Request = Request(owner: nat, tag: nat)

  /** Where the coordinator is. Idents name the next atomic step; the three *ed states are calls
      that have returned and oblige the caller to act. */
  datatype Coord =
    | Free
    | EnterLoad(tag: nat)              // load state
    | EnterOwner(tag: nat)             // compare request_owner
    | EnterTag(tag: nat)               // compare request_tag
    | PutOwner(tag: nat)               // store request_owner
    | PutTag(tag: nat)                 // store request_tag
    | PutActive(tag: nat)              // store ACTIVE
    | Submitted                        // SUBMIT returned
    | AbortCas                         // ACTIVE -> RETIRING
    | Collecting(tag: nat)             // COLLECT returned
    | CollectCas                       // COMPLETE -> RETIRING
    | CancelLoad(who: nat, tries: nat) // load state
    | CancelOwner(who: nat, seen: St, tries: nat)
    | CancelCas(who: nat, seen: St, tries: nat)
    | CancelledDone                    // CANCEL_COMPLETE returned
    | DropLoad                         // load state in dropped()
    | Wipe1(how: How)                  // gate_retire: clear request_owner
    | Wipe2(how: How)                  //              clear request_tag
    | Wipe3(how: How)                  //              store IDLE

  /** Where the worker is. */
  datatype Worker = Asleep | HasJob | WDropLoad | WWipe1 | WWipe2 | WWipe3

  /** What the last completed call answered. */
  datatype Answer =
    | NoAnswer | Sync | Submit | Block | Collect | WakeUp | Drop | CancelNone | CancelActive | CancelComplete

  /** The gate, both program counters, and a history: every SUBMIT and every retirement. */
  datatype Gate = Gate(selected: nat, owner: nat, tag: nat, st: St, c: Coord, w: Worker,
                       answer: Answer, wanswer: Answer, submits: seq<Request>, ends: seq<How>, completed: bool,
                           cancelled: bool)

  const START := Gate(0, 0, 0, Idle, Free, Asleep, NoAnswer, NoAnswer, [], [], false, false)

  datatype Event =
    | Select(who: nat)
    | Enter(tag: nat)
    | Cancel(who: nat)
    | Queue              // the submitted job reaches the worker
    | AbortSubmit        // or queueing failed
    | CoordStep          // the coordinator's next atomic step
    | WorkerStep         // the worker's next atomic step

  // ---- the calls, one atomic step at a time ------------------------------------------------

  function Returned(g: Gate, a: Answer): Gate { g.(c := Free, answer := a) }

  /** lxp_async_gate_enter after its null checks. */
  function EnterStep(g: Gate): Gate {
    match g.c
    case EnterLoad(t) =>
      if g.st == Complete then g.(c := EnterOwner(t))
      else if g.st != Idle then Returned(g, Block)
      else g.(c := PutOwner(t))
    case EnterOwner(t) => if g.owner == g.selected then g.(c := EnterTag(t)) else Returned(g, Block)
    case EnterTag(t) => if g.tag == t then g.(c := Collecting(t), answer := Collect) else Returned(g, Block)
    case PutOwner(t) => g.(owner := g.selected, c := PutTag(t))
    case PutTag(t) => g.(tag := t, c := PutActive(t))
    case PutActive(t) =>
      g.(st := Active, c := Submitted, answer := Submit, submits := g.submits + [Request(g.selected, t)],
         completed := false, cancelled := false)
    case _ => g
  }

  /** lxp_async_gate_cancel after its null checks. */
  function CancelStep(g: Gate): Gate {
    match g.c
    case CancelLoad(o, n) => g.(c := CancelOwner(o, g.st, n))
    case CancelOwner(o, seen, n) =>
      if (seen != Active && seen != Complete) || g.owner != o then Returned(g, CancelNone)
      else g.(c := CancelCas(o, seen, n))
    case CancelCas(o, seen, n) =>
      if g.st != seen then g.(c := CancelLoad(o, n + 1))
      else if seen == Complete then g.(st := Retiring, cancelled := true, c := CancelledDone, answer := CancelComplete)
      else Returned(g.(st := Retiring, cancelled := true), CancelActive)
    case _ => g
  }

  /** Abort, collected and dropped, with gate_retire as three stores. */
  function RetireStep(g: Gate): Gate {
    match g.c
    case AbortCas => if g.st == Active then g.(st := Retiring, c := Wipe1(Aborted)) else g.(c := Free)
    case Collecting(t) => g.(c := CollectCas)
    case CollectCas => if g.st == Complete then g.(st := Retiring, c := Wipe1(Collected)) else g.(c := Free)
    case CancelledDone => g.(c := DropLoad)
    case DropLoad => if g.st == Retiring then g.(c := Wipe1(Dropped)) else g.(c := Free)
    case Wipe1(h) => g.(owner := 0, c := Wipe2(h))
    case Wipe2(h) => g.(tag := 0, c := Wipe3(h))
    case Wipe3(h) => g.(st := Idle, c := Free, ends := g.ends + [h])
    case _ => g
  }

  /** The worker: complete, and dropped when told to drop. */
  function WorkStep(g: Gate): Gate {
    match g.w
    case Asleep => g
    case HasJob =>
      if g.st == Active then g.(st := Complete, w := Asleep, wanswer := WakeUp, completed := true)
      else g.(w := WDropLoad, wanswer := Drop)
    case WDropLoad => if g.st == Retiring then g.(w := WWipe1) else g.(w := Asleep)
    case WWipe1 => g.(owner := 0, w := WWipe2)
    case WWipe2 => g.(tag := 0, w := WWipe3)
    case WWipe3 => g.(st := Idle, w := Asleep, ends := g.ends + [Dropped])
  }

  function Step(g: Gate, e: Event): Gate {
    match e
    case Select(o) => if g.c.Free? then g.(selected := o) else g
    case Enter(t) => if !g.c.Free? then g else if g.selected == 0 then g.(answer := Sync) else g.(c := EnterLoad(t))
    case Cancel(o) => if !g.c.Free? then g else if o == 0 then g.(answer := CancelNone) else g.(c := CancelLoad(o, 0))
    case Queue => if g.c.Submitted? then g.(c := Free, w := HasJob) else g
    case AbortSubmit => if g.c.Submitted? then g.(c := AbortCas) else g
    case CoordStep => if Cancelling(g.c) then CancelStep(g) else if Ending(g.c) then RetireStep(g) else EnterStep(g)
    case WorkerStep => WorkStep(g)
  }

  predicate Cancelling(c: Coord) { c.CancelLoad? || c.CancelOwner? || c.CancelCas? }

  predicate Ending(c: Coord) {
    c.AbortCas? || c.Collecting? || c.CollectCas? || c.CancelledDone? || c.DropLoad? || c.Wipe1? || c.Wipe2? || c.Wipe3?
  }

  // ---- the invariant ---------------------------------------------------------------------------

  predicate Open(g: Gate) { |g.submits| == |g.ends| + 1 }

  function Last(g: Gate): Request
    requires |g.submits| > 0
  {
    g.submits[|g.submits| - 1]
  }

  /** The open transaction, as published. */
  predicate Identified(g: Gate) { Open(g) && Last(g) == Request(g.owner, g.tag) }

  /** What the coordinator's position says. */
  predicate CoordOk(g: Gate) {
    match g.c
    case Free => g.st == Active ==> g.w == HasJob
    case EnterLoad(t) => g.selected != 0 && (g.st == Active ==> g.w == HasJob)
    case EnterOwner(t) => g.st == Complete
    case EnterTag(t) => g.st == Complete && g.owner == g.selected
    case PutOwner(t) => g.st == Idle
    case PutTag(t) => g.st == Idle && g.owner == g.selected
    case PutActive(t) => g.st == Idle && g.owner == g.selected && g.tag == t
    case Submitted => g.st == Active && g.w == Asleep
    case AbortCas => g.st == Active && g.w == Asleep
    case Collecting(t) => g.st == Complete && Open(g) && Last(g) == Request(g.selected, t)
    case CollectCas => g.st == Complete
    case CancelLoad(o, n) => n <= 1 && (n == 1 ==> g.st == Complete) && (g.st == Active ==> g.w == HasJob)
    case CancelOwner(o, seen, n) =>
      n <= 1 && (n == 1 ==> g.st == Complete == seen) && (g.st == Active ==> g.w == HasJob)
      && (seen == Active ==> g.st == Active || g.st == Complete) && (seen == Complete ==> g.st == Complete)
    case CancelCas(o, seen, n) =>
      n <= 1 && (n == 1 ==> g.st == Complete == seen) && (g.st == Active ==> g.w == HasJob)
          && (seen == Active || seen == Complete)
      && (seen == Active ==> g.st == Active || g.st == Complete) && (seen == Complete ==> g.st == Complete)
         && g.owner == o
    case CancelledDone => g.st == Retiring && g.w == Asleep && g.cancelled && g.completed
    case DropLoad => g.st == Retiring && g.w == Asleep && g.cancelled && g.completed
    case Wipe1(h) => WipeOk(g, h)
    case Wipe2(h) => WipeOk(g, h)
    case Wipe3(h) => WipeOk(g, h)
  }

  /** Each ending matches what happened to the transaction. */
  predicate WipeOk(g: Gate, h: How) {
    && g.st == Retiring && g.w == Asleep
    && match h
       case Aborted => !g.completed && !g.cancelled
       case Collected => g.completed && !g.cancelled
       case Dropped => g.completed && g.cancelled
  }

  predicate WorkerOk(g: Gate) {
    match g.w
    case Asleep => true
    case HasJob => !g.completed && (g.st == Active || (g.st == Retiring && g.cancelled))
    case _ => !g.completed && g.st == Retiring && g.cancelled
  }

  predicate StateOk(g: Gate) {
    match g.st
    case Idle => |g.submits| == |g.ends| && g.w == Asleep
    case Active => Identified(g) && !g.completed && !g.cancelled
    case Complete => Identified(g) && g.completed && !g.cancelled && g.w == Asleep
    case Retiring =>
      Open(g) && (g.w != Asleep || g.c.CancelledDone? || g.c.DropLoad? || g.c.Wipe1? || g.c.Wipe2? || g.c.Wipe3?)
  }

  predicate Inv(g: Gate) { StateOk(g) && CoordOk(g) && WorkerOk(g) }

  lemma EnterKeeps(g: Gate)
    requires Inv(g)
    ensures Inv(EnterStep(g))
  {
    if g.c.PutActive? {
      assert Last(EnterStep(g)) == Request(g.selected, g.c.tag);
    }
  }

  lemma CancelKeeps(g: Gate)
    requires Inv(g) && Cancelling(g.c)
    ensures Inv(CancelStep(g))
  {
  }

  lemma RetireKeeps(g: Gate)
    requires Inv(g) && Ending(g.c)
    ensures Inv(RetireStep(g))
  {
  }

  lemma WorkKeeps(g: Gate)
    requires Inv(g)
    ensures Inv(WorkStep(g))
  {
  }

  lemma StepKeeps(g: Gate, e: Event)
    requires Inv(g)
    ensures Inv(Step(g, e))
  {
    if e.CoordStep? {
      hide Inv;
      if Cancelling(g.c) { CancelKeeps(g); } else if Ending(g.c) { RetireKeeps(g); } else { EnterKeeps(g); }
    } else if e.WorkerStep? {
      hide Inv;
      WorkKeeps(g);
    }
  }

  // ---- runs ----------------------------------------------------------------------------------

  function Run(g: Gate, es: seq<Event>): Gate
    decreases |es|
  {
    if es == [] then g else Run(Step(g, es[0]), es[1..])
  }

  lemma {:induction false} RunFrom(g: Gate, es: seq<Event>)
    requires Inv(g)
    ensures Inv(Run(g, es))
    decreases |es|
  {
    if es != [] {
      StepKeeps(g, es[0]);
      RunFrom(Step(g, es[0]), es[1..]);
    }
  }

  lemma Reachable(es: seq<Event>)
    ensures Inv(Run(START, es))
  {
    RunFrom(START, es);
  }

  /** COLLECT is answered only for the exact owner and tag of the latest SUBMIT, after its
      completion won the race and with no cancellation; the transaction is still open. */
  lemma CollectExact(es: seq<Event>)
    requires Run(START, es).c.Collecting?
    ensures var g := Run(START, es);
            Open(g) && Last(g) == Request(g.selected, g.c.tag) && g.completed && !g.cancelled && g.w == Asleep
  {
    Reachable(es);
  }

  /** While the worker holds a job no step of anyone submits another. */
  lemma NoSecondSubmit(es: seq<Event>, e: Event)
    requires Run(START, es).w != Asleep
    ensures Step(Run(START, es), e).submits == Run(START, es).submits
  {
    Reachable(es);
  }

  /** Every SUBMIT is retired at most once, in order, and only the latest can still be open; when
      the gate is idle all of them are retired. */
  lemma RetiredOnce(es: seq<Event>)
    ensures var g := Run(START, es);
            |g.ends| <= |g.submits| <= |g.ends| + 1 && (g.st == Idle <==> |g.ends| == |g.submits|)
  {
    Reachable(es);
  }

  /** What one step may add to the retirements: an abort of what never completed, a collection of
      what completed uncancelled, a drop of what was cancelled; always of the open transaction. */
  predicate EndsRight(g: Gate, h: Gate) {
    || h.ends == g.ends
    || (Open(g) && h.ends == g.ends + [Aborted] && !g.completed && !g.cancelled)
    || (Open(g) && h.ends == g.ends + [Collected] && g.completed && !g.cancelled)
    || (Open(g) && h.ends == g.ends + [Dropped] && g.cancelled)
  }

  /** What one step may add to the submissions: one by the selected owner, with none open. */
  predicate SubmitsRight(g: Gate, h: Gate) {
    h.submits == g.submits || (|g.submits| == |g.ends| && h.submits == g.submits + [Request(g.selected, h.tag)])
  }

  lemma EnterRight(g: Gate)
    requires Inv(g)
    ensures EndsRight(g, EnterStep(g)) && SubmitsRight(g, EnterStep(g))
  {
    hide EndsRight;
    assert EndsRight(g, EnterStep(g)) by { assert EnterStep(g).ends == g.ends; SameEnds(g, EnterStep(g)); }
  }

  lemma SameEnds(g: Gate, h: Gate)
    requires h.ends == g.ends
    ensures EndsRight(g, h)
  {
  }

  lemma RetireRight(g: Gate)
    requires Inv(g) && Ending(g.c)
    ensures EndsRight(g, RetireStep(g)) && RetireStep(g).submits == g.submits
  {
  }

  lemma WorkRight(g: Gate)
    requires Inv(g)
    ensures EndsRight(g, WorkStep(g)) && WorkStep(g).submits == g.submits
  {
  }

  lemma StepRight(g: Gate, e: Event)
    requires Inv(g)
    ensures EndsRight(g, Step(g, e)) && SubmitsRight(g, Step(g, e))
  {
    hide Inv, EnterStep, RetireStep, WorkStep;
    if e.WorkerStep? {
      WorkRight(g);
    } else if e.CoordStep? {
      if Cancelling(g.c) {
        assert CancelStep(g).ends == g.ends && CancelStep(g).submits == g.submits;
      } else if Ending(g.c) {
        RetireRight(g);
      } else {
        EnterRight(g);
      }
    }
  }

  /** In every run each submission is made with none open and each retirement is of the open one
      and matches what happened to it. */
  lemma EachEndRight(es: seq<Event>, e: Event)
    ensures var g := Run(START, es);
            EndsRight(g, Step(g, e)) && SubmitsRight(g, Step(g, e))
  {
    hide Run, Step, EndsRight, SubmitsRight;
    Reachable(es);
    StepRight(Run(START, es), e);
  }

  /** Completion answers DROP exactly when cancellation moved the gate first. */
  lemma DropIffCancelled(es: seq<Event>)
    requires Run(START, es).w == HasJob
    ensures var g := Run(START, es);
            (Step(g, WorkerStep).wanswer == Drop <==> g.cancelled)
                && (Step(g, WorkerStep).wanswer == WakeUp <==> !g.cancelled)
  {
    Reachable(es);
  }

  /** The cancel loop retries at most once: only the worker's ACTIVE to COMPLETE step interferes. */
  lemma CancelRetriesOnce(es: seq<Event>)
    ensures var g := Run(START, es); Cancelling(g.c) ==> g.c.tries <= 1
  {
    Reachable(es);
  }

  /** Cancelling the exact owner of an active or complete request always succeeds, and a request of
      anyone else is never touched. */
  lemma CancelTargets(es: seq<Event>)
    requires Run(START, es).c.CancelCas?
    ensures var g := Run(START, es);
            Open(g) && Last(g).owner == g.c.who
            && (g.st == g.c.seen ==> Step(g, CoordStep).cancelled && Step(g, CoordStep).st == Retiring)
            && (g.st != g.c.seen ==> g.c.seen == Active && g.st == Complete && g.c.tries == 0)
  {
    Reachable(es);
  }

  // ---- nothing is left of a retired request ------------------------------------------------

  /** The words that name a request are clear as far as its retirement has got, and stay so until the
      next one is stored. */
  predicate Blank(g: Gate) {
    && (g.st == Idle && !g.c.PutTag? && !g.c.PutActive? ==> g.owner == 0)
    && (g.st == Idle && !g.c.PutActive? ==> g.tag == 0)
    && (g.c.Wipe2? || g.c.Wipe3? || g.w == WWipe2 || g.w == WWipe3 ==> g.owner == 0)
    && (g.c.Wipe3? || g.w == WWipe3 ==> g.tag == 0)
  }

  lemma BlankStep(g: Gate, e: Event)
    requires Inv(g) && Blank(g)
    ensures Blank(Step(g, e))
  {
    hide EnterStep, CancelStep, RetireStep, WorkStep;
    if e.CoordStep? {
      BlankEnter(g);
      BlankRetire(g);
    } else if e.WorkerStep? {
      BlankWork(g);
    }
  }

  lemma BlankEnter(g: Gate)
    requires Inv(g) && Blank(g)
    ensures Blank(EnterStep(g)) && Blank(CancelStep(g))
  {
  }

  lemma BlankRetire(g: Gate)
    requires Inv(g) && Blank(g)
    ensures Blank(RetireStep(g))
  {
  }

  lemma BlankWork(g: Gate)
    requires Inv(g) && Blank(g)
    ensures Blank(WorkStep(g))
  {
  }

  lemma {:induction false} BlankRun(g: Gate, es: seq<Event>)
    requires Inv(g) && Blank(g)
    ensures Blank(Run(g, es))
    decreases |es|
  {
    hide Inv, Blank, Step;
    if es != [] {
      StepKeeps(g, es[0]);
      BlankStep(g, es[0]);
      BlankRun(Step(g, es[0]), es[1..]);
    }
  }

  /** In every reachable state: an idle gate into which no request is being stored names no owner and no
      tag, whichever side retired the last one. */
  lemma IdleIsBlank(es: seq<Event>)
    ensures var g := Run(START, es);
            g.st == Idle && !g.c.PutTag? && !g.c.PutActive? ==> g.owner == 0 && g.tag == 0
  {
    BlankRun(START, es);
  }

  // ---- every retirement that has begun ends ------------------------------------------------

  /** Steps its holder still needs before a retiring transaction is gone; the worker holds it while
      awake, the coordinator otherwise. */
  function Left(g: Gate): nat {
    match g.w
    case HasJob => 5
    case WDropLoad => 4
    case WWipe1 => 3
    case WWipe2 => 2
    case WWipe3 => 1
    case Asleep =>
      if g.c.CancelledDone? then 5
      else if g.c.DropLoad? then 4
      else if g.c.Wipe1? then 3
      else if g.c.Wipe2? then 2
      else 1
  }

  function Holder(g: Gate): Event { if g.w == Asleep then CoordStep else WorkerStep }

  function Count(es: seq<Event>, e: Event): nat {
    if es == [] then 0 else (if es[0] == e then 1 else 0) + Count(es[1..], e)
  }

  lemma LeftFalls(g: Gate, e: Event)
    requires Inv(g) && g.st == Retiring
    ensures var h := Step(g, e);
            || |h.ends| == |g.ends| + 1
            || (h.st == Retiring && h.ends == g.ends && Holder(h) == Holder(g) && Left(h) <= Left(g)
                && (e == Holder(g) ==> Left(h) < Left(g)))
  {
    if e.CoordStep? && g.w != Asleep { assert !Ending(g.c) || !Cancelling(g.c); }
  }

  lemma EndsStep(g: Gate, e: Event)
    ensures |g.ends| <= |Step(g, e).ends|
  {
    if e.CoordStep? {
      assert |g.ends| <= |RetireStep(g).ends|;
      assert g.ends == EnterStep(g).ends;
    }
  }

  lemma {:induction false} EndsGrow(g: Gate, es: seq<Event>)
    ensures |g.ends| <= |Run(g, es).ends|
    decreases |es|
  {
    if es != [] {
      hide Step;
      EndsStep(g, es[0]);
      EndsGrow(Step(g, es[0]), es[1..]);
    }
  }

  /** Whatever else happens in between, a transaction that started retiring is retired once its
      holder has taken as many steps as are left, never more than five. */
  lemma {:induction false} RetirementEnds(g: Gate, es: seq<Event>)
    requires Inv(g) && g.st == Retiring
    requires Count(es, Holder(g)) >= Left(g)
    ensures Left(g) <= 5 && |Run(g, es).ends| > |g.ends|
    decreases |es|
  {
    hide Inv, Step;
    assert Left(g) >= 1;
    var h := Step(g, es[0]);
    LeftFalls(g, es[0]);
    StepKeeps(g, es[0]);
    if |h.ends| == |g.ends| + 1 {
      EndsGrow(h, es[1..]);
    } else {
      RetirementEnds(h, es[1..]);
    }
  }

  // ---- the calls as the program makes them ---------------------------------------------------

  /** The coordinator's next n steps with nothing in between. */
  function Alone(g: Gate, n: nat): Gate
    decreases n
  {
    if n == 0 then g else Alone(Step(g, CoordStep), n - 1)
  }

  lemma Next(g: Gate, n: nat)
    ensures Alone(g, 0) == g
    ensures n > 0 ==> Alone(g, n) == Alone(Step(g, CoordStep), n - 1)
  {
  }

  lemma {:induction false} FreeAlone(g: Gate, n: nat)
    requires g.c.Free?
    ensures Alone(g, n) == g
    decreases n
  {
    if n > 0 { FreeAlone(g, n - 1); }
  }

  lemma WipeStep(g: Gate)
    requires g.c.Wipe1? || g.c.Wipe2? || g.c.Wipe3?
    ensures Step(g, CoordStep) ==
              match g.c
              case Wipe1(h) => g.(owner := 0, c := Wipe2(h))
              case Wipe2(h) => g.(tag := 0, c := Wipe3(h))
              case Wipe3(h) => g.(st := Idle, c := Free, ends := g.ends + [h])
              case _ => g
  {
  }

  /** gate_retire undisturbed. */
  lemma WipeAlone(g: Gate)
    requires g.c.Wipe1?
    ensures Alone(g, 3) == g.(owner := 0, tag := 0, st := Idle, c := Free, ends := g.ends + [g.c.how])
  {
    hide Alone, Step;
    WipeStep(g);
    var g1 := Step(g, CoordStep);
    WipeStep(g1);
    var g2 := Step(g1, CoordStep);
    WipeStep(g2);
    Next(g, 3);
    Next(g1, 2);
    Next(g2, 1);
    Next(Step(g2, CoordStep), 0);
  }

  lemma ClaimStep(g: Gate)
    requires g.c.AbortCas? || g.c.CollectCas? || g.c.DropLoad?
    ensures var from := if g.c.AbortCas? then Active else if g.c.CollectCas? then Complete else Retiring;
            var how := if g.c.AbortCas? then Aborted else if g.c.CollectCas? then Collected else Dropped;
            Step(g, CoordStep) == if g.st == from then g.(st := Retiring, c := Wipe1(how)) else g.(c := Free)
  {
  }

  /** A retiring call undisturbed: it retires the transaction or leaves the gate alone. */
  lemma RetireAlone(g: Gate)
    requires g.c.AbortCas? || g.c.CollectCas? || g.c.DropLoad?
    ensures var from := if g.c.AbortCas? then Active else if g.c.CollectCas? then Complete else Retiring;
            var h := Alone(g, 4);
            h.selected == g.selected
            && (if g.st == from then h.owner == 0 && h.tag == 0 && h.st == Idle && |h.ends| == |g.ends| + 1
                else h == g.(c := Free))
  {
    hide Alone, Step;
    ClaimStep(g);
    Next(g, 4);
    var g1 := Step(g, CoordStep);
    if g1.c.Free? { FreeAlone(g1, 3); } else { WipeAlone(g1); }
  }

  /** A whole enter call undisturbed. */
  lemma EnterAlone(g: Gate, t: nat)
    requires g.c.Free?
    ensures var h := Alone(Step(g, Enter(t)), 4);
            h.selected == g.selected
            && (if g.selected != 0 && g.st == Idle
                then h.owner == g.selected && h.tag == t && h.st == Active && h.answer == Submit
                    && h.submits == g.submits + [Request(g.selected, t)]
                else h.owner == g.owner && h.tag == g.tag && h.st == g.st
                     && h.answer == (if g.selected == 0 then Sync
                                     else if g.st == Complete && g.owner == g.selected && g.tag == t then Collect
                                     else Block))
  {
    var g0 := Step(g, Enter(t));
    var g1 := Step(g0, CoordStep);
    assert Alone(g0, 4) == Alone(g1, 3);
    if g0.c.Free? {
      FreeAlone(g0, 4);
    } else if g1.c.Free? {
      FreeAlone(g1, 3);
    } else if g.st == Idle {
      PutAlone(g1);
    } else {
      MatchAlone(g1);
    }
  }

  lemma PutAlone(g: Gate)
    requires g.c.PutOwner?
    ensures Alone(g, 3) == g.(owner := g.selected, tag := g.c.tag, st := Active, c := Submitted, answer := Submit,
                              submits := g.submits + [Request(g.selected, g.c.tag)], completed := false,
                                  cancelled := false)
  {
    hide Alone, Step;
    PutStep(g);
    var g1 := Step(g, CoordStep);
    PutStep(g1);
    var g2 := Step(g1, CoordStep);
    PutStep(g2);
    Next(g, 3);
    Next(g1, 2);
    Next(g2, 1);
    Next(Step(g2, CoordStep), 0);
  }

  lemma PutStep(g: Gate)
    requires g.c.PutOwner? || g.c.PutTag? || g.c.PutActive?
    ensures Step(g, CoordStep) ==
              match g.c
              case PutOwner(t) => g.(owner := g.selected, c := PutTag(t))
              case PutTag(t) => g.(tag := t, c := PutActive(t))
              case PutActive(t) =>
                g.(st := Active, c := Submitted, answer := Submit, submits := g.submits + [Request(g.selected, t)],
                                      completed := false, cancelled := false)
              case _ => g
  {
  }

  lemma MatchStep(g: Gate)
    requires g.c.EnterOwner? || g.c.EnterTag? || g.c.Collecting?
    ensures Step(g, CoordStep) ==
              match g.c
              case EnterOwner(t) =>
                if g.owner == g.selected then g.(c := EnterTag(t)) else g.(c := Free, answer := Block)
              case EnterTag(t) =>
                if g.tag == t then g.(c := Collecting(t), answer := Collect) else g.(c := Free, answer := Block)
              case Collecting(t) => g.(c := CollectCas)
              case _ => g
  {
  }

  lemma MatchAlone(g: Gate)
    requires g.c.EnterOwner?
    ensures var h := Alone(g, 3);
            h == g.(c := h.c, answer := if g.owner == g.selected && g.tag == g.c.tag then Collect else Block)
  {
    hide Alone, Step;
    MatchStep(g);
    var g1 := Step(g, CoordStep);
    Next(g, 3);
    if g1.c.Free? {
      FreeAlone(g1, 2);
    } else {
      MatchStep(g1);
      var g2 := Step(g1, CoordStep);
      Next(g1, 2);
      if g2.c.Free? {
        FreeAlone(g2, 1);
      } else {
        MatchStep(g2);
        Next(g2, 1);
        Next(Step(g2, CoordStep), 0);
      }
    }
  }

  /** A whole cancel call undisturbed: the compare-and-swap succeeds the first time round. */
  lemma CancelAlone(g: Gate, who: nat)
    requires g.c.Free?
    ensures var h := Alone(Step(g, Cancel(who)), 3);
            h.selected == g.selected && h.owner == g.owner && h.tag == g.tag
            && (if who == 0 || (g.st != Active && g.st != Complete) || g.owner != who
                then h.st == g.st && h.answer == CancelNone
                else h.st == Retiring && h.answer == if g.st == Complete then CancelComplete else CancelActive)
  {
    var g0 := Step(g, Cancel(who));
    if g0.c.Free? {
      FreeAlone(g0, 3);
    } else {
      var g1 := g0.(c := CancelOwner(who, g.st, 0));
      assert Step(g0, CoordStep) == g1;
      var g2 := Step(g1, CoordStep);
      assert Alone(g0, 3) == Alone(g1, 2) == Alone(g2, 1) == Alone(Step(g2, CoordStep), 0);
    }
  }

  /** The shared record. Each call, run undisturbed, does what its atomic steps do. */
  class Shared {
    var selected: nat
    var owner: nat
    var tag: nat
    var st: St

    ghost predicate Shows(g: Gate)
      reads this
    {
      selected == g.selected && owner == g.owner && tag == g.tag && st == g.st
    }

    constructor ()
      ensures Shows(START)
    {
      selected, owner, tag, st := 0, 0, 0, Idle;
    }

    method Select(who: nat, ghost g: Gate)
      requires Shows(g) && g.c.Free?
      modifies this
      ensures Shows(Step(g, Event.Select(who)))
    {
      selected := who;
    }

    method Retire()
      modifies this
      ensures owner == 0 && tag == 0 && st == Idle && selected == old(selected)
    {
      owner := 0;
      tag := 0;
      st := Idle;
    }

    method Enter(t: nat, ghost g: Gate) returns (a: Answer)
      requires Shows(g) && g.c.Free?
      modifies this
      ensures Shows(Alone(Step(g, Event.Enter(t)), 4)) && a == Alone(Step(g, Event.Enter(t)), 4).answer
    {
      hide Alone, Step;
      EnterAlone(g, t);
      if selected == 0 {
        a := Sync;
      } else if st == Complete {
        a := if owner == selected && tag == t then Collect else Block;
      } else if st != Idle {
        a := Block;
      } else {
        owner := selected;
        tag := t;
        st := Active;
        a := Submit;
      }
    }

    method Abort(ghost g: Gate)
      requires Shows(g) && g.c.AbortCas?
      modifies this
      ensures Shows(Alone(g, 4))
    {
      hide Alone, Step;
      RetireAlone(g);
      if st == Active { Retire(); }
    }

    method Collected(ghost g: Gate)
      requires Shows(g) && g.c.CollectCas?
      modifies this
      ensures Shows(Alone(g, 4))
    {
      hide Alone, Step;
      RetireAlone(g);
      if st == Complete { Retire(); }
    }

    method Dropped(ghost g: Gate)
      requires Shows(g) && g.c.DropLoad?
      modifies this
      ensures Shows(Alone(g, 4))
    {
      hide Alone, Step;
      RetireAlone(g);
      if st == Retiring { Retire(); }
    }

    method Publish(ghost g: Gate) returns (a: Answer)
      requires Shows(g) && g.w == HasJob
      modifies this
      ensures Shows(Step(g, WorkerStep)) && a == Step(g, WorkerStep).wanswer
    {
      if st == Active {
        st := Complete;
        a := WakeUp;
      } else {
        a := Drop;
      }
    }

    method Cancel(who: nat, ghost g: Gate) returns (a: Answer)
      requires Shows(g) && g.c.Free?
      modifies this
      ensures Shows(Alone(Step(g, Event.Cancel(who)), 3)) && a == Alone(Step(g, Event.Cancel(who)), 3).answer
    {
      hide Alone, Step;
      CancelAlone(g, who);
      if who == 0 || (st != Active && st != Complete) || owner != who {
        a := CancelNone;
      } else {
        a := if st == Complete then CancelComplete else CancelActive;
        st := Retiring;
      }
    }
  }
}
