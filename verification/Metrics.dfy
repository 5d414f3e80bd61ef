/** The syscall metrics: a sequence-locked lifetime total and a double-buffered report window,
    written by the syscall path and read, word by word, by one reporting task. */
module Metrics {
  import opened Bytes

  const TWO64: int := 0x1_0000_0000_0000_0000

  /** One completed syscall. */
  datatype Sample = Sample(nr: uint32, cycles: uint32)

  /** The record, with its counters as wide as the machine's. */
  datatype Record = Record(calls: uint32, min: uint32, max: uint32, total: nat, maxNr: uint32)

  const CLEAR := Record(0, 0xFFFF_FFFF, 0, 0, 0)

  /** metrics_add. */
  function Add(m: Record, s: Sample): Record {
    var first := m.calls == 0;
    Record((m.calls + 1) % TWO32,
           if first || s.cycles < m.min then s.cycles else m.min,
           if first || s.cycles > m.max then s.cycles else m.max,
           (m.total + s.cycles) % TWO64,
           if first || s.cycles > m.max then s.nr else m.maxNr)
  }

  function Summary(log: seq<Sample>): Record {
    if log == [] then CLEAR else Add(Summary(log[..|log| - 1]), log[|log| - 1])
  }

  // ---- what a summary means --------------------------------------------------------------------

  function Cycles(log: seq<Sample>): nat {
    if log == [] then 0 else Cycles(log[..|log| - 1]) + log[|log| - 1].cycles
  }

  /** Where the samples begin that the extremes of n samples range over: at the first, until the
      call counter wraps; the sample that follows a wrap starts afresh. */
  function Since(n: nat): (k: nat)
    ensures k <= n && (n > 0 ==> k < n)
  {
    if n == 0 then 0 else (n - 1) / TWO32 * TWO32
  }

  lemma SinceStep(n: nat)
    ensures Since(n + 1) == if n % TWO32 == 0 then n else Since(n)
  {
  }

  /** v is the least number of cycles of log[from..]. */
  predicate Least(log: seq<Sample>, from: nat, v: int) {
    && (forall i :: from <= i < |log| ==> v <= log[i].cycles)
    && (exists i :: from <= i < |log| && log[i].cycles == v)
  }

  /** k is the first sample of log[from..] with the most cycles. */
  predicate FirstMost(log: seq<Sample>, from: nat, k: nat) {
    && from <= k < |log|
    && (forall i :: from <= i < |log| ==> log[i].cycles <= log[k].cycles)
    && (forall i :: from <= i < k ==> log[i].cycles < log[k].cycles)
  }

  predicate Most(log: seq<Sample>, from: nat, v: int, nr: int) {
    exists k :: from <= k < |log| && FirstMost(log, from, k) && log[k].cycles == v && log[k].nr == nr
  }

  lemma LeastGrows(was: seq<Sample>, s: Sample, from: nat, v: int)
    requires Least(was, from, v)
    ensures Least(was + [s], from, if s.cycles < v then s.cycles else v)
  {
    var log := was + [s];
    var i :| from <= i < |was| && was[i].cycles == v;
    assert log[|was|] == s && forall j :: 0 <= j < |was| ==> log[j] == was[j];
  }

  lemma MostGrows(was: seq<Sample>, s: Sample, from: nat, v: int, nr: int)
    requires Most(was, from, v, nr)
    ensures Most(was + [s], from, if s.cycles > v then s.cycles else v, if s.cycles > v then s.nr else nr)
  {
    var log := was + [s];
    var k :| from <= k < |was| && FirstMost(was, from, k) && was[k].cycles == v && was[k].nr == nr;
    assert log[|was|] == s && forall i :: 0 <= i < |was| ==> log[i] == was[i];
    assert FirstMost(log, from, if s.cycles > v then |was| else k);
  }

  lemma OneSample(was: seq<Sample>, s: Sample)
    ensures Least(was + [s], |was|, s.cycles) && Most(was + [s], |was|, s.cycles, s.nr)
  {
    var log := was + [s];
    assert log[|was|] == s;
    assert FirstMost(log, |was|, |was|);
  }

  lemma SummaryStep(log: seq<Sample>, x: Sample)
    ensures Summary(log + [x]) == Add(Summary(log), x)
  {
    var l := log + [x];
    assert l[..|l| - 1] == log;
  }

  lemma {:induction false} SummaryCounts(log: seq<Sample>)
    ensures Summary(log).calls == |log| % TWO32
    ensures Summary(log).total == Cycles(log) % TWO64
  {
    if log != [] {
      var was, x := log[..|log| - 1], log[|log| - 1];
      SummaryCounts(was);
      AddMod(Summary(was).total, Cycles(was), x.cycles, TWO64);
      AddMod(Summary(was).calls, |was|, 1, TWO32);
      assert Summary(log) == Add(Summary(was), x);
      hide Summary;
    }
  }

  lemma AddMod(t: nat, c: nat, x: nat, m: nat)
    requires m > 0 && t == c % m
    ensures (t + x) % m == (c + x) % m
  {
    DivUnique(t, m, 0, t);
    SumStep(t, c, x, x, m);
  }

  /** Adding what is congruent keeps congruence. */
  lemma SumStep(a: int, b: int, c: int, d: int, m: int)
    requires m > 0 && a % m == b % m && d % m == c % m
    ensures (a + d) % m == (b + c) % m
  {
    var k := a / m - b / m + d / m - c / m;
    assert a + d == b + c + m * k by {
      assert a == m * (a / m) + a % m && b == m * (b / m) + b % m;
      assert d == m * (d / m) + d % m && c == m * (c / m) + c % m;
    }
    ModShift(b + c, k, m);
  }

  lemma {:induction false} ModShift(x: int, k: int, m: int)
    requires m > 0
    ensures (x + m * k) % m == x % m
    decreases if k < 0 then -k else k
  {
    if k > 0 {
      ModShift(x, k - 1, m);
      ModOne(x + m * (k - 1), m);
      assert x + m * k == x + m * (k - 1) + m;
    } else if k < 0 {
      ModShift(x, k + 1, m);
      ModOne(x + m * k, m);
      assert x + m * (k + 1) == x + m * k + m;
    }
  }

  lemma ModOne(x: int, m: int)
    requires m > 0
    ensures (x + m) % m == x % m
  {
    var q, r := x / m, x % m;
    assert x + m == m * (q + 1) + r;
    assert (x + m) / m == q + 1 by { DivUnique(x + m, m, q + 1, r); }
  }

  /** Every summary is exact: the number of samples and their cycles modulo the counter widths, the
      least and the greatest cycles, and the call that first reached the greatest. */
  lemma {:induction false} SummaryExact(log: seq<Sample>)
    ensures var m := Summary(log);
            && m.calls == |log| % TWO32
            && m.total == Cycles(log) % TWO64
            && (log != [] ==> Least(log, Since(|log|), m.min) && Most(log, Since(|log|), m.max, m.maxNr))
  {
    hide Least, Most, Since, Cycles, Summary;
    SummaryCounts(log);
    if log != [] {
      var was := log[..|log| - 1];
      SummaryExact(was);
      assert log == was + [log[|log| - 1]];
      SummaryStep(was, log[|log| - 1]);
      ExtremesStep(was, log[|log| - 1], Summary(was));
    }
  }

  lemma ExtremesStep(was: seq<Sample>, s: Sample, m: Record)
    requires m.calls == |was| % TWO32
    requires was != [] ==> Least(was, Since(|was|), m.min) && Most(was, Since(|was|), m.max, m.maxNr)
    ensures Least(was + [s], Since(|was + [s]|), Add(m, s).min)
    ensures Most(was + [s], Since(|was + [s]|), Add(m, s).max, Add(m, s).maxNr)
  {
    hide Least, Most, Since;
    SinceStep(|was|);
    if m.calls == 0 {
      OneSample(was, s);
    } else {
      LeastGrows(was, s, Since(|was|), m.min);
      MostGrows(was, s, Since(|was|), m.max, m.maxNr);
    }
  }

  /** n samples whose first alone has other cycles than 1. */
  function Odd(n: nat, cycles: uint32): (log: seq<Sample>)
    requires n > 0
    ensures |log| == n && log[0].cycles == cycles && forall i :: 0 < i < n ==> log[i].cycles == 1
  {
    [Sample(0, cycles)] + seq(n - 1, _ => Sample(0, 1))
  }

  lemma SinceZeroIff(n: nat)
    requires n > 0
    ensures Since(n) == 0 <==> n <= TWO32
  {
  }

  /** A first sample of no cycles, or of two, is forgotten once the call count has wrapped. */
  lemma Forgotten(n: nat)
    requires n > TWO32
    ensures var m := Summary(Odd(n, 0)); !Least(Odd(n, 0), 0, m.min)
    ensures var m := Summary(Odd(n, 2)); !Most(Odd(n, 2), 0, m.max, m.maxNr)
  {
    hide Summary;
    SinceZeroIff(n);
    SummaryExact(Odd(n, 0));
    SummaryExact(Odd(n, 2));
  }

  /** The least cycles on record are those of all n samples, whatever they are, if and only if the
      call count has not wrapped; a window is that short when it is taken often enough. */
  lemma LeastIff(n: nat)
    requires n > 0
    ensures (forall log: seq<Sample> :: |log| == n ==> Least(log, 0, Summary(log).min)) <==> n <= TWO32
  {
    SinceZeroIff(n);
    if n <= TWO32 {
      forall log: seq<Sample> | |log| == n ensures Least(log, 0, Summary(log).min) { SummaryExact(log); }
    } else {
      Forgotten(n);
      assert |Odd(n, 0)| == n;
    }
  }

  /** The same for the greatest cycles and the call that first reached them. */
  lemma MostIff(n: nat)
    requires n > 0
    ensures (forall log: seq<Sample> :: |log| == n ==> Most(log, 0, Summary(log).max, Summary(log).maxNr)) <==>
        n <= TWO32
  {
    SinceZeroIff(n);
    if n <= TWO32 {
      forall log: seq<Sample> | |log| == n
          ensures Most(log, 0, Summary(log).max, Summary(log).maxNr) { SummaryExact(log); }
    } else {
      Forgotten(n);
      assert |Odd(n, 2)| == n;
    }
  }

  /** As 32-bit words: calls, least, greatest, the two halves of the sum, and the call number. */
  function Words(m: Record): (ws: seq<uint32>)
    requires m.total < TWO64
    ensures |ws| == 6
  {
    [m.calls, m.min, m.max, m.total % TWO32, m.total / TWO32, m.maxNr]
  }

  function Unpack(ws: seq<uint32>): (m: Record)
    requires |ws| == 6
    ensures m.total < TWO64 && Words(m) == ws
  {
    Record(ws[0], ws[1], ws[2], ws[3] + TWO32 * ws[4], ws[5])
  }

  /** metrics_add on the words in memory. */
  function Added(ws: seq<uint32>, x: Sample): (r: seq<uint32>)
    requires |ws| == 6
    ensures |r| == 6
  {
    Words(Add(Unpack(ws), x))
  }

  lemma {:induction false} SummaryFits(log: seq<Sample>)
    ensures Summary(log).total < TWO64
  {
  }

  /** The words of the summary of a log. */
  function Image(log: seq<Sample>): (ws: seq<uint32>)
    ensures |ws| == 6
  {
    SummaryFits(log);
    Words(Summary(log))
  }

  // ---- the two actors --------------------------------------------------------------------------

  /** The reporting task, between two of its word-sized accesses. */
  datatype Reader =
    | Ready
    | Flip(b: nat)                                 // the active window was read
    | Copy(b: nat, buf: seq<uint32>)               // |buf| words of the retired window copied
    | Wipe(b: nat, done: nat, buf: seq<uint32>)    // done words of it cleared
    | Before                                       // about to read the sequence
    | Total(before: uint32, buf: seq<uint32>)      // |buf| words of the total copied

  /** The shared record, whether the writer is inside its locked section and what
      it is storing, the reader, and a
      history: every sample, the samples of each bucket, those of each window taken, the windows
      and snapshots delivered, and the samples at the reader's latest first look at the lock. */
  datatype State = State(active: nat, win: seq<seq<uint32>>, seqno: uint32, total: seq<uint32>, busy: bool,
                         goal: seq<uint32>, r: Reader,
                         log: seq<Sample>, buckets: seq<seq<Sample>>, chunks: seq<seq<Sample>>,
                         taken: seq<seq<uint32>>, mark: seq<Sample>)

  datatype Event =
    | Enter(s: Sample)     // the syscall path: window update, then the lock turns odd
    | Store(i: nat)        // it stores one word of the new total
    | Leave                // all words stored: the lock turns even
    | Take                 // the reader calls take
    | Snapshot             // the reader calls snapshot
    | Read                 // the reader's next word-sized access

  function Start(): State {
    State(0, [Image([]), Image([])], 0, Image([]), false, Image([]), Ready, [], [[], []], [], [], [])
  }

  predicate Shape(s: State) {
    && s.active < 2 && |s.win| == |s.buckets| == 2 && |s.win[0]| == |s.win[1]| == |s.total| == |s.goal| == 6
    && (match s.r
        case Flip(b) => b < 2
        case Copy(b, buf) => b < 2 && |buf| <= 6
        case Wipe(b, k, buf) => b < 2 && k <= 6 && |buf| == 6
        case Total(_, buf) => |buf| <= 6
        case _ => true)
  }

  function ReadStep(s: State): (t: State)
    requires Shape(s)
    ensures Shape(t)
  {
    match s.r
    case Ready => s
    case Flip(b) => s.(active := 1 - b, r := Copy(b, []))
    case Copy(b, buf) => if |buf| < 6 then s.(r := Copy(b, buf + [s.win[b][|buf|]])) else s.(r := Wipe(b, 0, buf))
    case Wipe(b, k, buf) =>
      if k < 6 then s.(win := s.win[b := s.win[b][k := Image([])[k]]], r := Wipe(b, k + 1, buf))
      else s.(buckets := s.buckets[b := []], chunks := s.chunks + [s.buckets[b]], taken := s.taken + [buf], r := Before)
    case Before => s.(r := Total(s.seqno, []), mark := s.log)
    case Total(before, buf) =>
      if |buf| < 6 then s.(r := Total(before, buf + [s.total[|buf|]]))
      else if before != s.seqno || s.seqno % 2 == 1 then s.(r := Before)
      else s.(r := Ready)
  }

  function Step(s: State, e: Event): (t: State)
    requires Shape(s)
    ensures Shape(t)
  {
    match e
    case Enter(x) =>
      if s.busy then s
      else s.(win := s.win[s.active := Added(s.win[s.active], x)],
              buckets := s.buckets[s.active := s.buckets[s.active] + [x]],
              log := s.log + [x], seqno := (s.seqno + 1) % TWO32, busy := true,
              goal := Added(s.total, x))
    case Store(i) => if s.busy && i < 6 then s.(total := s.total[i := s.goal[i]]) else s
    case Leave => if s.busy && s.total == s.goal then s.(seqno := (s.seqno + 1) % TWO32, busy := false) else s
    case Take => if s.r.Ready? then s.(r := Flip(s.active)) else s
    case Snapshot => if s.r.Ready? then s.(r := Before) else s
    case Read => ReadStep(s)
  }

  // ---- the invariant ---------------------------------------------------------------------------

  lemma AddedImage(log: seq<Sample>, x: Sample)
    ensures Added(Image(log), x) == Image(log + [x])
  {
    var l := log + [x];
    assert l[..|l| - 1] == log && l[|l| - 1] == x;
    var m := Summary(log);
    assert Unpack(Words(m)) == m;
  }

  function Flat(chunks: seq<seq<Sample>>): seq<Sample> {
    if chunks == [] then [] else Flat(chunks[..|chunks| - 1]) + chunks[|chunks| - 1]
  }

  /** The lock counts the samples twice, less one while the writer is inside. */
  predicate LockOk(s: State) {
    && s.seqno == (2 * |s.log| - (if s.busy then 1 else 0)) % TWO32
    && (s.busy ==> |s.log| > 0 && s.goal == Image(s.log))
    && (!s.busy ==> s.total == Image(s.log))
  }

  /** Every sample is in exactly one place: a window already taken, the retired bucket or the active
      one, in the order recorded. */
  predicate Placed(s: State) {
    && Shape(s)
    && s.log == Flat(s.chunks) + s.buckets[1 - s.active] + s.buckets[s.active]
    && |s.taken| == |s.chunks|
    && (forall i :: 0 <= i < |s.taken| ==> s.taken[i] == Image(s.chunks[i]))
  }

  predicate WindowsOk(s: State) {
    && Shape(s)
    && s.win[s.active] == Image(s.buckets[s.active])
    && (!s.r.Copy? && !s.r.Wipe? ==> s.buckets[1 - s.active] == [])
    && (!s.r.Wipe? ==> s.win[1 - s.active] == Image(s.buckets[1 - s.active]))
    && (match s.r
        case Flip(b) => b == s.active
        case Copy(b, buf) => b == 1 - s.active && buf == s.win[b][..|buf|]
        case Wipe(b, k, buf) =>
          b == 1 - s.active && buf == Image(s.buckets[b]) && forall i :: 0 <= i < k ==> s.win[b][i] == Image([])[i]
        case _ => true)
  }

  /** What a snapshot under way has copied is exact as long as nothing was recorded since its first
      look at an even lock. */
  predicate SnapOk(s: State) {
    s.r.Total? ==>
      && s.mark <= s.log
      && (s.r.before == (2 * |s.mark|) % TWO32 || (|s.mark| > 0 && s.r.before == (2 * |s.mark| - 1) % TWO32))
      && (s.r.before % 2 == 0 && |s.log| == |s.mark| ==>
          !s.busy && |s.r.buf| <= 6 && s.r.buf == Image(s.log)[..|s.r.buf|])
  }

  predicate Inv(s: State) { Shape(s) && LockOk(s) && Placed(s) && WindowsOk(s) && SnapOk(s) }

  lemma EnterKeeps(s: State, x: Sample)
    requires Inv(s) && !s.busy
    ensures Inv(Step(s, Enter(x)))
  {
    hide Image, Added, Flat;
    var t := Step(s, Enter(x));
    AddedImage(s.buckets[s.active], x);
    AddedImage(s.log, x);
    LockStep(2 * |s.log|);
    assert t.log == Flat(s.chunks) + s.buckets[1 - s.active] + (s.buckets[s.active] + [x]);
    assert t.r.Total? ==> t.mark <= t.log;
  }

  lemma LeaveKeeps(s: State, e: Event)
    requires Inv(s) && (e.Store? || e.Leave?)
    ensures Inv(Step(s, e))
  {
    hide Image, Added, Flat, Placed;
    if s.busy { LockStep(2 * |s.log| - 1); }
    assert Placed(Step(s, e)) by { SamePlaces(s, Step(s, e)); }
  }

  lemma SamePlaces(s: State, t: State)
    requires Placed(s) && Shape(t) && t.active == s.active && t.log == s.log && t.chunks == s.chunks
        && t.buckets == s.buckets && t.taken == s.taken
    ensures Placed(t)
  {
  }

  lemma LockStep(n: nat)
    ensures (n % TWO32 + 1) % TWO32 == (n + 1) % TWO32
  {
  }

  lemma FlipKeeps(s: State)
    requires Inv(s) && s.r.Flip?
    ensures Inv(ReadStep(s))
  {
    hide Image, Added, Flat;
    var t := ReadStep(s);
    assert s.buckets[1 - s.r.b] == [];
    assert t.log == Flat(t.chunks) + t.buckets[1 - t.active] + t.buckets[t.active];
  }

  lemma CopyKeeps(s: State)
    requires Inv(s) && s.r.Copy?
    ensures Inv(ReadStep(s))
  {
    hide Image, Added, Flat;
    var w, n := s.win[s.r.b], |s.r.buf|;
    if n < 6 { assert w[..n + 1] == w[..n] + [w[n]]; } else { assert w[..n] == w; }
  }

  lemma WipeKeeps(s: State)
    requires Inv(s) && s.r.Wipe?
    ensures Inv(ReadStep(s))
  {
    hide Image, Added, Flat;
    var t := ReadStep(s);
    if s.r.done == 6 {
      FlatStep(s.chunks, s.buckets[s.r.b]);
      assert t.log == Flat(t.chunks) + [] + s.buckets[s.active];
      assert s.win[s.r.b] == Image([]);
    }
  }

  lemma FlatStep(chunks: seq<seq<Sample>>, a: seq<Sample>)
    ensures Flat(chunks + [a]) == Flat(chunks) + a
  {
    assert (chunks + [a])[..|chunks|] == chunks;
  }

  lemma SnapKeeps(s: State)
    requires Inv(s) && (s.r.Before? || s.r.Total?)
    ensures Inv(ReadStep(s))
  {
    hide Image, Added, Flat;
    if s.r.Total? && |s.r.buf| < 6 {
      var n := |s.r.buf|;
      assert s.total[..n + 1] == s.total[..n] + [s.total[n]];
    }
  }

  lemma StepKeeps(s: State, e: Event)
    requires Inv(s)
    ensures Inv(Step(s, e))
  {
    if e.Enter? {
      if !s.busy { EnterKeeps(s, e.s); }
    } else if e.Store? || e.Leave? {
      LeaveKeeps(s, e);
    } else if e.Read? && !s.r.Ready? {
      match s.r {
        case Flip(_) => FlipKeeps(s);
        case Copy(_, _) => CopyKeeps(s);
        case Wipe(_, _, _) => WipeKeeps(s);
        case _ => SnapKeeps(s);
      }
    } else {
      hide Image, Added, Flat;
    }
  }

  function Run(s: State, es: seq<Event>): (t: State)
    requires Shape(s)
    ensures Shape(t)
    decreases |es|
  {
    if es == [] then s else Run(Step(s, es[0]), es[1..])
  }

  lemma {:induction false} RunKeeps(s: State, es: seq<Event>)
    requires Inv(s)
    ensures Inv(Run(s, es))
    decreases |es|
  {
    hide LockOk, Placed, WindowsOk, SnapOk;
    if es != [] {
      StepKeeps(s, es[0]);
      RunKeeps(Step(s, es[0]), es[1..]);
    }
  }

  lemma Reachable(es: seq<Event>)
    ensures Inv(Run(Start(), es))
  {
    assert Inv(Start()) by { assert Flat([]) == []; }
    RunKeeps(Start(), es);
  }

  // ---- theorems --------------------------------------------------------------------------------

  /** The reader accepts what it copied. */
  predicate Accepts(s: State) {
    s.r.Total? && |s.r.buf| == 6 && s.r.before == s.seqno && s.seqno % 2 == 0
  }

  /** An accepted snapshot is the lifetime total at one moment, if fewer than 2^31 samples were
      recorded while it was taken: none was, in fact, and the copy is exact. */
  lemma SnapshotExact(es: seq<Event>)
    requires Accepts(Run(Start(), es))
    requires |Run(Start(), es).log| < |Run(Start(), es).mark| + TWO31
    ensures var s := Run(Start(), es);
            s.log == s.mark && s.r.buf == s.total == Image(s.log)
  {
    Reachable(es);
    AcceptedExact(Run(Start(), es));
  }

  lemma AcceptedExact(s: State)
    requires Inv(s) && Accepts(s) && |s.log| < |s.mark| + TWO31
    ensures s.log == s.mark && s.r.buf == s.total == Image(s.log)
  {
    hide Image, Placed, WindowsOk;
    SameCount(|s.log|, |s.mark|, s.busy, s.r.before, s.seqno);
  }

  /** An even lock read twice with fewer than 2^31 samples in between has not moved. */
  lemma SameCount(n: nat, k: nat, busy: bool, before: uint32, now: uint32)
    requires k <= n < k + TWO31 && before == now && now % 2 == 0
    requires now == (2 * n - if busy then 1 else 0) % TWO32 && (busy ==> n > 0)
    requires before == (2 * k) % TWO32 || (k > 0 && before == (2 * k - 1) % TWO32)
    ensures n == k && !busy
  {
  }

  /** No sample is lost or counted twice: the samples of the windows taken, then of the retired
      bucket, then of the active one, are all samples in order, and each window taken is the summary
      of its own. */
  lemma Conserved(es: seq<Event>)
    ensures var s := Run(Start(), es);
            && s.log == Flat(s.chunks) + s.buckets[1 - s.active] + s.buckets[s.active]
            && |s.taken| == |s.chunks|
            && (forall i :: 0 <= i < |s.taken| ==> s.taken[i] == Image(s.chunks[i]))
  {
    Reachable(es);
  }

  /** The records that count at a moment: windows taken, the active bucket, and the retired one, or
      its copy while it is being cleared. */
  function Live(s: State): (ws: seq<seq<uint32>>)
    requires Shape(s)
    ensures forall i :: 0 <= i < |ws| ==> (i < |s.taken| && ws[i] == s.taken[i]) || |ws[i]| == 6
  {
    s.taken + [if s.r.Wipe? then s.r.buf else s.win[1 - s.active]] + [s.win[s.active]]
  }

  function CallSum(ws: seq<seq<uint32>>): int
    requires forall i :: 0 <= i < |ws| ==> |ws[i]| == 6
  {
    if ws == [] then 0 else CallSum(ws[..|ws| - 1]) + ws[|ws| - 1][0]
  }

  function CycleSum(ws: seq<seq<uint32>>): int
    requires forall i :: 0 <= i < |ws| ==> |ws[i]| == 6
  {
    if ws == [] then 0 else CycleSum(ws[..|ws| - 1]) + ws[|ws| - 1][3] + TWO32 * ws[|ws| - 1][4]
  }

  lemma {:induction false} CyclesJoin(a: seq<Sample>, b: seq<Sample>)
    ensures Cycles(a + b) == Cycles(a) + Cycles(b)
  {
    if b == [] {
      assert a + b == a;
    } else {
      var l := a + b;
      assert l[..|l| - 1] == a + b[..|b| - 1] && l[|l| - 1] == b[|b| - 1];
      CyclesJoin(a, b[..|b| - 1]);
    }
  }

  lemma {:induction false} SumsOf(chunks: seq<seq<Sample>>, ws: seq<seq<uint32>>)
    requires |ws| == |chunks| && forall i :: 0 <= i < |ws| ==> |ws[i]| == 6 && ws[i] == Image(chunks[i])
    ensures CallSum(ws) % TWO32 == |Flat(chunks)| % TWO32
    ensures CycleSum(ws) % TWO64 == Cycles(Flat(chunks)) % TWO64
  {
    hide Image;
    if chunks != [] {
      var n := |chunks| - 1;
      SumsOf(chunks[..n], ws[..n]);
      ImageCounts(chunks[n]);
      CyclesJoin(Flat(chunks[..n]), chunks[n]);
      assert CallSum(ws) == CallSum(ws[..n]) + ws[n][0];
      assert CycleSum(ws) == CycleSum(ws[..n]) + (ws[n][3] + TWO32 * ws[n][4]);
      assert Flat(chunks) == Flat(chunks[..n]) + chunks[n];
      hide Cycles, CallSum, CycleSum, Flat;
      JoinMod(CycleSum(ws[..n]), Cycles(Flat(chunks[..n])), Cycles(chunks[n]), ws[n][3] + TWO32 * ws[n][4], TWO64);
      JoinMod(CallSum(ws[..n]), |Flat(chunks[..n])|, |chunks[n]|, ws[n][0], TWO32);
    }
  }

  lemma JoinMod(a: int, b: int, c: int, d: int, m: int)
    requires m > 0 && a % m == b % m && d == c % m
    ensures (a + d) % m == (b + c) % m
  {
    DivUnique(d, m, 0, d);
    SumStep(a, b, c, d, m);
  }

  lemma ImageCounts(log: seq<Sample>)
    ensures Image(log)[0] == |log| % TWO32
    ensures Image(log)[3] + TWO32 * Image(log)[4] == Cycles(log) % TWO64
  {
    SummaryExact(log);
  }

  /** In every reachable state the calls and the cycles over those records add up to the lifetime
      counts, modulo the width of the counters. */
  lemma CountsConserved(es: seq<Event>)
    ensures var s := Run(Start(), es);
            && (forall i :: 0 <= i < |Live(s)| ==> |Live(s)[i]| == 6)
            && CallSum(Live(s)) % TWO32 == |s.log| % TWO32
            && CycleSum(Live(s)) % TWO64 == Cycles(s.log) % TWO64
            && (!s.busy ==> s.total[0] == |s.log| % TWO32 && s.total[3] + TWO32 * s.total[4] == Cycles(s.log) % TWO64)
  {
    Reachable(es);
    hide Run, Image, Flat, CallSum, CycleSum, Cycles, Live;
    var s := Run(Start(), es);
    ImageCounts(s.log);
    LiveImages(s);
    FlatTwo(s.chunks, s.buckets[1 - s.active], s.buckets[s.active]);
    SumsOf(Parts(s), Live(s));
  }

  /** The samples behind those records. */
  function Parts(s: State): seq<seq<Sample>>
    requires Shape(s)
  {
    s.chunks + [s.buckets[1 - s.active]] + [s.buckets[s.active]]
  }

  lemma LiveImages(s: State)
    requires Placed(s) && WindowsOk(s)
    ensures |Live(s)| == |Parts(s)|
    ensures forall i :: 0 <= i < |Live(s)| ==> |Live(s)[i]| == 6 && Live(s)[i] == Image(Parts(s)[i])
  {
    hide Image;
  }

  lemma FlatTwo(chunks: seq<seq<Sample>>, a: seq<Sample>, b: seq<Sample>)
    ensures Flat(chunks + [a] + [b]) == Flat(chunks) + a + b
  {
    FlatStep(chunks + [a], b);
    FlatStep(chunks, a);
  }

  // ---- the retry loop --------------------------------------------------------------------------

  /** t is s after the reader's next access and then any steps of the writer. */
  ghost predicate Follows(s: State, t: State)
    requires Shape(s)
  {
    exists ws :: Writer(ws) && t == Run(Step(s, Read), ws)
  }

  predicate Writer(ws: seq<Event>) { forall i :: 0 <= i < |ws| ==> ws[i].Enter? || ws[i].Store? || ws[i].Leave? }

  /** The states in which the reader makes its accesses one after the other, the writer running in
      between as it likes. */
  ghost predicate Accesses(tr: seq<State>) {
    && (forall i :: 0 <= i < |tr| ==> Inv(tr[i]))
    && (forall i, j :: 0 <= i && j == i + 1 && j < |tr| ==> Follows(tr[i], tr[j]))
  }

  lemma {:induction false} WriterKeepsReader(s: State, ws: seq<Event>)
    requires Shape(s) && Writer(ws)
    ensures Run(s, ws).r == s.r
    decreases |ws|
  {
    if ws != [] { WriterKeepsReader(Step(s, ws[0]), ws[1..]); }
  }

  /** What an access left in the reader's registers is still there at the next. */
  lemma NextAccess(tr: seq<State>, i: nat)
    requires Accesses(tr) && i + 1 < |tr|
    ensures tr[i + 1].r == ReadStep(tr[i]).r
  {
    var ws :| Writer(ws) && tr[i + 1] == Run(Step(tr[i], Read), ws);
    WriterKeepsReader(Step(tr[i], Read), ws);
  }

  /** The three kinds of access of a snapshot. */
  lemma LookStep(tr: seq<State>, i: nat)
    requires Accesses(tr) && i < |tr| && tr[i].r == Before
    ensures !Accepts(tr[i]) && (i + 1 < |tr| ==> tr[i + 1].r == Total(tr[i].seqno, []))
  {
    if i + 1 < |tr| { NextAccess(tr, i); }
  }

  lemma CopyStep(tr: seq<State>, i: nat)
    requires Accesses(tr) && i < |tr| && tr[i].r.Total? && |tr[i].r.buf| < 6
    ensures |tr[i].total| == 6 && !Accepts(tr[i])
    ensures i + 1 < |tr| ==> tr[i + 1].r == Total(tr[i].r.before, tr[i].r.buf + [tr[i].total[|tr[i].r.buf|]])
  {
    assert Inv(tr[i]);
    if i + 1 < |tr| { NextAccess(tr, i); }
  }

  lemma RetryStep(tr: seq<State>, i: nat)
    requires Accesses(tr) && i < |tr| && tr[i].r.Total? && |tr[i].r.buf| == 6 && !Accepts(tr[i])
    ensures i + 1 < |tr| ==> tr[i + 1].r == Before
  {
    assert Inv(tr[i]);
    if i + 1 < |tr| { NextAccess(tr, i); }
  }

  /** The copy of one round, from access k on: its words and the number of the next access. */
  method CopyRound(tr: seq<State>, from: nat, before: uint32) returns (t: seq<uint32>, k: nat)
    requires Accesses(tr) && from <= |tr| && (from < |tr| ==> tr[from].r == Total(before, []))
    ensures from <= k <= |tr| && (k < |tr| ==> |t| == 6 && tr[k].r == Total(before, t))
    ensures forall j :: from <= j < k ==> !Accepts(tr[j])
  {
    hide Accesses, Accepts;
    t, k := [], from;
    while |t| < 6 && k < |tr|
      invariant |t| <= 6 && from <= k <= |tr| && (k < |tr| ==> tr[k].r == Total(before, t))
      invariant forall j :: from <= j < k ==> !Accepts(tr[j])
      decreases 6 - |t|
    {
      CopyStep(tr, k);
      t := t + [tr[k].total[|t|]];
      k := k + 1;
    }
  }

  /** lxp_rt_svc_metrics_snapshot against a moving total: its n-th access is to the memory of tr[n].
      It answers at the first access at which the lock is even and unmoved; the copy it returns is
      then the total of that moment, unless 2^31 samples came in since its first look. */
  method SnapshotLoop(tr: seq<State>) returns (done: bool, t: seq<uint32>, k: nat)
    requires Accesses(tr) && tr != [] && tr[0].r == Before
    ensures done <==> exists j :: 0 <= j < |tr| && Accepts(tr[j])
    ensures done ==> k < |tr| && Accepts(tr[k]) && forall j :: 0 <= j < k ==> !Accepts(tr[j])
    ensures done && |tr[k].log| < |tr[k].mark| + TWO31 ==> t == Image(tr[k].log) == tr[k].total
  {
    hide Accesses, Image;
    done, t, k := false, [], 0;
    while k < |tr|
      invariant k <= |tr| && !done && (k < |tr| ==> tr[k].r == Before)
      invariant forall j :: 0 <= j < k ==> !Accepts(tr[j])
      decreases |tr| - k
    {
      LookStep(tr, k);
      var before := tr[k].seqno;
      t, k := CopyRound(tr, k + 1, before);
      if k < |tr| {
        var after := tr[k].seqno;
        if before == after && after % 2 == 0 {
          Exact(tr, k);
          return true, t, k;
        }
        RetryStep(tr, k);
        k := k + 1;
      }
    }
  }

  lemma Exact(tr: seq<State>, k: nat)
    requires Accesses(tr) && k < |tr| && Accepts(tr[k])
    ensures |tr[k].log| < |tr[k].mark| + TWO31 ==> tr[k].r.buf == Image(tr[k].log) == tr[k].total
  {
    assert Inv(tr[k]);
    if |tr[k].log| < |tr[k].mark| + TWO31 { AcceptedExact(tr[k]); }
  }

  // ---- the calls as the program makes them ----------------------------------------------------

  /** The globals, with no call under way. */
  class Globals {
    var active: nat
    var window: seq<Record>
    var seqno: uint32
    var total: Record
    ghost var log: seq<Sample>
    ghost var buckets: seq<seq<Sample>>

    ghost predicate Valid()
      reads this
    {
      && active < 2 && |window| == |buckets| == 2 && seqno % 2 == 0
      && total == Summary(log)
      && window[active] == Summary(buckets[active])
      && window[1 - active] == CLEAR && buckets[1 - active] == []
    }

    constructor ()
      ensures Valid() && log == [] && buckets == [[], []]
    {
      active, window, seqno, total := 0, [CLEAR, CLEAR], 0, CLEAR;
      log, buckets := [], [[], []];
    }

    method RecordCall(x: Sample)
      requires Valid()
      modifies this
      ensures Valid() && log == old(log) + [x]
      ensures active == old(active) && buckets[active] == old(buckets[active]) + [x]
    {
      hide Summary, Add;
      SummaryStep(buckets[active], x);
      SummaryStep(log, x);
      window := window[active := Add(window[active], x)];
      buckets := buckets[active := buckets[active] + [x]];
      seqno := (seqno + 1) % TWO32;
      total := Add(total, x);
      log := log + [x];
      seqno := (seqno + 1) % TWO32;
    }

    /** Undisturbed, the first copy is accepted: the lock is even and does not move. */
    method Snapshot() returns (t: Record)
      requires Valid()
      ensures t == Summary(log)
    {
      var before := seqno;
      t := total;
      var after := seqno;
      if before != after || after % 2 != 0 {
        assert false; // nobody moved the lock: no second round
      }
    }

    method Take() returns (w: Record, t: Record)
      requires Valid()
      modifies this
      ensures Valid() && log == old(log)
      ensures w == Summary(old(buckets[active])) && t == Summary(log)
      ensures buckets[active] == []
    {
      var was := active;
      active := 1 - was;
      w := window[was];
      window := window[was := CLEAR];
      buckets := buckets[was := []];
      t := Snapshot();
    }
  }
}
