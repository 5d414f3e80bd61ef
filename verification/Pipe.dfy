/** Pipes: a byte ring drained and filled by at most two copies, refining a bounded queue, with
    reader and writer ends counted in 16 bits. */
module Pipe {
  import opened Bytes

  const FULL: nat := 0xFFFF

  // ---- the queue -----------------------------------------------------------------------------

  /** The ends really open in a pipe's present life, and the most of one kind there ever were. */
  datatype Ends = Ends(readers: nat, writers: nat, most: nat)

  /** One pipe as a queue: the counters the code keeps, and a history of its present life: every byte
      accepted and delivered, and the ends opened and not closed. */
  datatype Queue = Queue(used: bool, data: seq<byte>, readers: nat, writers: nat, accepted: seq<byte>,
                         delivered: seq<byte>,
                         ends: Ends)

  const UNUSED := Queue(false, [], 0, 0, [], [], Ends(0, 0, 0))

  datatype Answer = Count(n: nat) | EAGAIN | EPIPE

  function Min(a: nat, b: nat): nat { if a < b then a else b }

  function Read(q: Queue, len: nat): (Queue, Answer) {
    if q.data == [] then (q, if q.writers > 0 then EAGAIN else Count(0))
    else
      var n := Min(len, |q.data|);
      (q.(data := q.data[n..], delivered := q.delivered + q.data[..n]), Count(n))
  }

  function Write(q: Queue, cap: nat, src: seq<byte>): (Queue, Answer)
    requires |q.data| <= cap
  {
    if q.readers == 0 then (q, EPIPE)
    else if |q.data| == cap then (q, EAGAIN)
    else
      var n := Min(|src|, cap - |q.data|);
      (q.(data := q.data + src[..n], accepted := q.accepted + src[..n]), Count(n))
  }

  function Ready(q: Queue, cap: nat, writeEnd: bool): bool {
    if writeEnd then |q.data| < cap || q.readers == 0 else |q.data| > 0 || q.writers == 0
  }

  function Max(a: nat, b: nat): nat { if a < b then b else a }

  function Less(n: nat): nat { if n > 0 then n - 1 else 0 }

  function Opened(e: Ends, writeEnd: bool): Ends {
    if writeEnd then Ends(e.readers, e.writers + 1, Max(e.most, e.writers + 1))
    else Ends(e.readers + 1, e.writers, Max(e.most, e.readers + 1))
  }

  function Closed(e: Ends, writeEnd: bool): Ends {
    if writeEnd then e.(writers := Less(e.writers)) else e.(readers := Less(e.readers))
  }

  function EndOpen(q: Queue, writeEnd: bool): Queue {
    if !q.used then q
    else if writeEnd then q.(writers := if q.writers == FULL then FULL else q.writers + 1, ends := Opened(q.ends, true))
    else q.(readers := if q.readers == FULL then FULL else q.readers + 1, ends := Opened(q.ends, false))
  }

  function EndClose(q: Queue, writeEnd: bool): Queue {
    if !q.used then q
    else
      var r := if writeEnd then q.(writers := Less(q.writers), ends := Closed(q.ends, true))
               else q.(readers := Less(q.readers), ends := Closed(q.ends, false));
      if r.readers == 0 && r.writers == 0 then UNUSED else r
  }

  function Discard(q: Queue): Queue { if q.readers == 0 && q.writers == 0 then UNUSED else q }

  datatype Call = ReadCall(len: nat) | WriteCall(src: seq<byte>) | OpenCall(end: bool) | CloseCall(end: bool)
      | DiscardCall | AllocCall

  function Step(q: Queue, cap: nat, c: Call): (r: Queue)
    requires |q.data| <= cap
    ensures |r.data| <= cap
  {
    match c
    case ReadCall(n) => Read(q, n).0
    case WriteCall(src) => Write(q, cap, src).0
    case OpenCall(e) => EndOpen(q, e)
    case CloseCall(e) => EndClose(q, e)
    case DiscardCall => Discard(q)
    case AllocCall => if q.used then q else UNUSED.(used := true)
  }

  function Run(q: Queue, cap: nat, cs: seq<Call>): (r: Queue)
    requires |q.data| <= cap
    ensures |r.data| <= cap
    decreases |cs|
  {
    if cs == [] then q else Run(Step(q, cap, cs[0]), cap, cs[1..])
  }

  predicate Inv(q: Queue, cap: nat) {
    && |q.data| <= cap && q.readers <= FULL && q.writers <= FULL
    && q.delivered + q.data == q.accepted
    && (!q.used ==> q == UNUSED)
    && Counted(q)
  }

  /** The counters never claim more ends than are open, and are exact while the 16 bits suffice. */
  predicate Counted(q: Queue) {
    && q.readers <= q.ends.readers <= q.ends.most && q.writers <= q.ends.writers <= q.ends.most
    && (q.ends.most <= FULL ==> q.readers == q.ends.readers && q.writers == q.ends.writers)
  }

  lemma StepKeeps(q: Queue, cap: nat, c: Call)
    requires Inv(q, cap)
    ensures Inv(Step(q, cap, c), cap)
  {
    if c.ReadCall? && q.data != [] {
      var n := Min(c.len, |q.data|);
      assert q.data == q.data[..n] + q.data[n..];
      assert q.delivered + q.data[..n] + q.data[n..] == q.delivered + q.data;
    } else if c.WriteCall? && q.readers > 0 && |q.data| < cap {
      var n := Min(|c.src|, cap - |q.data|);
      assert q.delivered + (q.data + c.src[..n]) == (q.delivered + q.data) + c.src[..n];
    }
  }

  /** Over every sequence of calls, what was delivered followed by what is buffered is what was
      accepted, in order. */
  lemma {:induction false} RunKeeps(q: Queue, cap: nat, cs: seq<Call>)
    requires Inv(q, cap)
    ensures Inv(Run(q, cap, cs), cap)
    decreases |cs|
  {
    if cs != [] {
      StepKeeps(q, cap, cs[0]);
      RunKeeps(Step(q, cap, cs[0]), cap, cs[1..]);
    }
  }

  /** End of file is exact while no kind of end was ever open more than 65535 times at once: a read
      of a positive length answers 0 if and only if no write end is open and everything accepted has
      been delivered. */
  lemma EofIff(cap: nat, cs: seq<Call>, len: nat)
    requires len > 0 && Run(UNUSED, cap, cs).ends.most <= FULL
    ensures var q := Run(UNUSED, cap, cs);
            Read(q, len).1 == Count(0) <==> q.ends.writers == 0 && q.delivered == q.accepted
  {
    RunKeeps(UNUSED, cap, cs);
    var q := Run(UNUSED, cap, cs);
    assert q.delivered == q.accepted <==> q.data == [] by {
      assert |q.delivered| + |q.data| == |q.accepted|;
    }
  }

  /** Whatever the counters say, end of file never comes before everything accepted was delivered, and
      never stays away once no write end is open. */
  lemma EofSound(cap: nat, cs: seq<Call>, len: nat)
    requires len > 0
    ensures var q := Run(UNUSED, cap, cs);
            && (Read(q, len).1 == Count(0) ==> q.delivered == q.accepted)
            && (q.ends.writers == 0 && q.delivered == q.accepted ==> Read(q, len).1 == Count(0))
  {
    RunKeeps(UNUSED, cap, cs);
    var q := Run(UNUSED, cap, cs);
    assert |q.delivered| + |q.data| == |q.accepted|;
  }

  function Repeat(c: Call, n: nat): (cs: seq<Call>)
    ensures |cs| == n
  {
    if n == 0 then [] else [c] + Repeat(c, n - 1)
  }

  lemma {:induction false} RunJoin(q: Queue, cap: nat, a: seq<Call>, b: seq<Call>)
    requires |q.data| <= cap
    ensures Run(q, cap, a + b) == Run(Run(q, cap, a), cap, b)
    decreases |a|
  {
    if a == [] {
      assert a + b == b;
    } else {
      assert (a + b)[1..] == a[1..] + b;
      RunJoin(Step(q, cap, a[0]), cap, a[1..], b);
    }
  }

  /** Opening n write ends of a used pipe. */
  lemma {:induction false} OpenMany(q: Queue, cap: nat, n: nat)
    requires q.used && q.data == [] && q.writers <= FULL
    ensures var r := Run(q, cap, Repeat(OpenCall(true), n));
            && r == q.(writers := r.writers, ends := r.ends) && r.ends.writers == q.ends.writers + n
               && r.ends.readers == q.ends.readers
            && r.writers == (if q.writers + n > FULL then FULL else q.writers + n)
            && r.ends.most == (if n == 0 then q.ends.most else Max(q.ends.most, q.ends.writers + n))
    decreases n
  {
    if n > 0 {
      assert Repeat(OpenCall(true), n)[1..] == Repeat(OpenCall(true), n - 1);
      OpenMany(EndOpen(q, true), cap, n - 1);
    }
  }

  /** Closing n of them while a read end is open. */
  lemma {:induction false} CloseMany(q: Queue, cap: nat, n: nat)
    requires q.used && q.data == [] && q.readers > 0 && n <= q.writers <= q.ends.writers
    ensures var r := Run(q, cap, Repeat(CloseCall(true), n));
            r == q.(writers := q.writers - n, ends := q.ends.(writers := q.ends.writers - n))
    decreases n
  {
    if n > 0 {
      assert Repeat(CloseCall(true), n)[1..] == Repeat(CloseCall(true), n - 1);
      CloseMany(EndClose(q, true), cap, n - 1);
    }
  }

  /** A pipe with a read end and n write ends, of which 65535 are closed again. */
  function Crowd(n: nat): seq<Call> {
    [AllocCall, OpenCall(false)] + Repeat(OpenCall(true), n) + Repeat(CloseCall(true), FULL)
  }

  /** With more than 65535 write ends end of file comes while some are still open. */
  lemma EofEarly(cap: nat, n: nat, len: nat)
    requires n > FULL
    ensures var q := Run(UNUSED, cap, Crowd(n));
            q.ends.most == n && q.ends.writers == n - FULL > 0 && Read(q, len).1 == Count(0)
  {
    var a, o, c := [AllocCall, OpenCall(false)], Repeat(OpenCall(true), n), Repeat(CloseCall(true), FULL);
    RunJoin(UNUSED, cap, a + o, c);
    RunJoin(UNUSED, cap, a, o);
    var q0 := UNUSED.(used := true, readers := 1, ends := Ends(1, 0, 1));
    assert Run(UNUSED, cap, a) == q0 by { assert a[1..] == [OpenCall(false)] && a[1..][1..] == []; }
    OpenMany(q0, cap, n);
    CloseMany(Run(q0, cap, o), cap, FULL);
  }

  /** So end of file is exact on every run with at most n ends of a kind open at once if and only if
      n is at most 65535. */
  lemma EofExactIff(cap: nat, n: nat)
    ensures (forall cs :: Run(UNUSED, cap, cs).ends.most <= n ==> EofExact(Run(UNUSED, cap, cs))) <==> n <= FULL
  {
    if n <= FULL {
      forall cs | Run(UNUSED, cap, cs).ends.most <= n ensures EofExact(Run(UNUSED, cap, cs)) { EofIff(cap, cs, 1); }
    } else {
      EofEarly(cap, n, 1);
      assert !EofExact(Run(UNUSED, cap, Crowd(n)));
    }
  }

  predicate EofExact(q: Queue) {
    Read(q, 1).1 == Count(0) <==> q.ends.writers == 0 && q.delivered == q.accepted
  }

  /** Poll reports an end ready exactly when the call on it would not ask to wait. */
  lemma ReadyIff(q: Queue, cap: nat, len: nat, src: seq<byte>)
    requires |q.data| <= cap
    ensures Ready(q, cap, false) <==> Read(q, len).1 != EAGAIN
    ensures Ready(q, cap, true) <==> Write(q, cap, src).1 != EAGAIN
  {
  }

  lemma Backlog(q: Queue, cap: nat)
    requires Inv(q, cap)
    ensures q.accepted == q.delivered + q.data && |q.accepted| - |q.delivered| == |q.data| <= cap
    ensures q.ends.most <= FULL ==> q.readers == q.ends.readers && q.writers == q.ends.writers
  {
    assert |q.delivered + q.data| == |q.delivered| + |q.data|;
  }

  /** After any run a read gets the oldest undelivered bytes, as many as there are and it asks for; with
      none due it answers 0 or asks to wait, as there is a writer or not. */
  lemma ReadExact(cap: nat, cs: seq<Call>, len: nat)
    ensures var q := Run(UNUSED, cap, cs);
            var (r, a), due := Read(q, len), |q.accepted| - |q.delivered|;
            && 0 <= due <= cap && r.accepted == q.accepted
            && (due > 0 ==> a == Count(Min(len, due)) && r.delivered == q.accepted[..|q.delivered| + Min(len, due)])
            && (due == 0 ==> r == q && a == if q.writers > 0 then EAGAIN else Count(0))
            && (q.ends.most <= FULL ==> q.writers == q.ends.writers)
  {
    hide Run;
    RunKeeps(UNUSED, cap, cs);
    var q := Run(UNUSED, cap, cs);
    hide Inv;
    Backlog(q, cap);
    var n := Min(len, |q.data|);
    assert (q.delivered + q.data)[..|q.delivered| + n] == q.delivered + q.data[..n];
  }

  /** After any run a write is refused for want of a reader or, with one, for want of room, and takes as
      many bytes as fit otherwise. */
  lemma WriteExact(cap: nat, cs: seq<Call>, src: seq<byte>)
    ensures var q := Run(UNUSED, cap, cs);
            var (r, a), due := Write(q, cap, src), |q.accepted| - |q.delivered|;
            && 0 <= due <= cap && r.delivered == q.delivered
            && (a == EPIPE <==> q.readers == 0) && (a == EAGAIN <==> q.readers > 0 && due == cap)
            && (q.readers > 0 && due < cap ==>
                a == Count(Min(|src|, cap - due)) && r.accepted == q.accepted + src[..Min(|src|, cap - due)])
            && (q.readers == 0 || due == cap ==> r == q)
            && (q.ends.most <= FULL ==> q.readers == q.ends.readers)
  {
    hide Run;
    RunKeeps(UNUSED, cap, cs);
    hide Inv;
    Backlog(Run(UNUSED, cap, cs), cap);
  }

  /** The life of a pipe: it is in use from its allocation until a close leaves it without ends or it
      is discarded without any; unused it holds nothing, and no other call ends or revives it. */
  lemma Lifetime(cap: nat, cs: seq<Call>, c: Call)
    ensures var q := Run(UNUSED, cap, cs);
            var r := Step(q, cap, c);
            && (!q.used ==> q == UNUSED) && (!r.used ==> r == UNUSED)
            && (!q.used ==> (r.used <==> c == AllocCall) && r.data == [] && r.readers == r.writers == 0)
            && (q.used ==>
                match c
                case CloseCall(e) =>
                  r.used <==> (if e then q.readers > 0 || q.writers > 1 else q.readers > 1 || q.writers > 0)
                case DiscardCall => (r == q <==> q.readers > 0 || q.writers > 0) && (r == q || !r.used)
                case AllocCall => r == q
                case _ => r.used)
  {
    RunKeeps(UNUSED, cap, cs);
  }

  /** A write followed by enough reading hands over the very bytes, after those already there. */
  lemma WriteThenRead(q: Queue, cap: nat, src: seq<byte>)
    requires |q.data| + |src| <= cap && q.readers > 0 && |q.data| < cap && q.data + src != []
    ensures var w := Write(q, cap, src);
            && w.1 == Count(|src|)
            && Read(w.0, |q.data| + |src|).0.delivered == q.delivered + q.data + src
            && Read(w.0, |q.data| + |src|).0.data == []
  {
    assert src[..|src|] == src;
    var w := Write(q, cap, src).0;
    assert w.data[..|q.data| + |src|] == w.data == q.data + src;
    assert q.delivered + (q.data + src) == q.delivered + q.data + src;
  }

  // ---- the ring ------------------------------------------------------------------------------

  /** The cell i places after r. */
  function Cell(r: nat, i: nat, cap: nat): nat { if r + i < cap then r + i else r + i - cap }

  /** The n bytes from cell r on, around the end. */
  function Ring(b: seq<byte>, r: nat, n: nat): (s: seq<byte>)
    requires r < |b| && n <= |b|
    ensures |s| == n
  {
    seq(n, i requires 0 <= i < n => b[Cell(r, i, |b|)])
  }

  /** Two copies out of the ring. */
  lemma RingSplit(b: seq<byte>, r: nat, c: nat, n: nat)
    requires r < |b| && n <= c <= |b|
    ensures var n1 := Min(|b| - r, n);
            b[r..r + n1] + b[..n - n1] == Ring(b, r, c)[..n]
    ensures Cell(r, n, |b|) < |b| ==> Ring(b, Cell(r, n, |b|), c - n) == Ring(b, r, c)[n..]
  {
  }

  lemma TwoPastes(d0: seq<byte>, d1: seq<byte>, d2: seq<byte>, x: seq<byte>, y: seq<byte>)
    requires |x| + |y| <= |d0| && AgreeOutside(d0, d1, 0, |x|) && d1[..|x|] == x
    requires AgreeOutside(d1, d2, |x|, |x| + |y|) && d2[|x|..|x| + |y|] == y
    ensures d2[..|x| + |y|] == x + y && AgreeOutside(d0, d2, 0, |x| + |y|)
  {
    assert d2[..|x|] == d1[..|x|];
    assert d2[..|x| + |y|] == d2[..|x|] + d2[|x|..|x| + |y|];
  }

  /** Two copies into the ring. */
  lemma RingJoin(b: seq<byte>, m: seq<byte>, t: seq<byte>, r: nat, c: nat, src: seq<byte>)
    requires r < |b| && c + |src| <= |b| && Cell(r, c, |b|) < |b|
    requires var w := Cell(r, c, |b|);
             var n1 := Min(|b| - w, |src|);
             && AgreeOutside(b, m, w, w + n1) && m[w..w + n1] == src[..n1]
             && AgreeOutside(m, t, 0, |src| - n1) && t[..|src| - n1] == src[n1..]
    ensures Ring(t, r, c + |src|) == Ring(b, r, c) + src
  {
    var w := Cell(r, c, |b|);
    var n1 := Min(|b| - w, |src|);
    forall i | 0 <= i < c + |src| ensures t[Cell(r, i, |b|)] == (Ring(b, r, c) + src)[i] {
      var k := Cell(r, i, |b|);
      if i >= c {
        if i - c < n1 {
          assert k == w + (i - c);
          assert m[w..w + n1][i - c] == src[i - c];
        } else {
          assert t[..|src| - n1][k] == src[n1..][k];
        }
      }
    }
  }

  /** A pipe of the pool: the ring with its cursors and the ends still open. */
  class Pipe {
    const cap: nat
    const buf: array<byte>
    var rpos: nat
    var wpos: nat
    var count: nat
    var readers: nat
    var writers: nat
    var used: bool
    ghost var accepted: seq<byte>
    ghost var delivered: seq<byte>
    ghost var ends: Ends

    ghost predicate Valid()
      reads this, buf
    {
      && cap == buf.Length > 0 && rpos < cap && wpos < cap && count <= cap && wpos == Cell(rpos, count, cap)
      && readers <= FULL && writers <= FULL
    }

    ghost function Abs(): (q: Queue)
      requires Valid()
      reads this, buf
      ensures |q.data| == count
    {
      Queue(used, Ring(buf[..], rpos, count), readers, writers, accepted, delivered, ends)
    }

    constructor (n: nat)
      requires n > 0
      ensures Valid() && cap == n && Abs() == UNUSED && fresh(buf)
    {
      cap := n;
      buf := new byte[n];
      rpos, wpos, count, readers, writers, used := 0, 0, 0, 0, 0, false;
      accepted, delivered, ends := [], [], Ends(0, 0, 0);
    }

    method Clear(live: bool)
      requires Valid()
      modifies this, buf
      ensures Valid() && Abs() == UNUSED.(used := live)
    {
      Zero(buf, 0, cap);
      rpos, wpos, count, readers, writers, used := 0, 0, 0, 0, 0, live;
      accepted, delivered, ends := [], [], Ends(0, 0, 0);
    }

    method OpenEnd(writeEnd: bool)
      requires Valid()
      modifies this
      ensures Valid() && Abs() == EndOpen(old(Abs()), writeEnd)
    {
      if used {
        if writeEnd {
          if writers != FULL { writers := writers + 1; }
        } else if readers != FULL {
          readers := readers + 1;
        }
        ends := Opened(ends, writeEnd);
      }
    }

    method CloseEnd(writeEnd: bool)
      requires Valid()
      modifies this, buf
      ensures Valid() && Abs() == EndClose(old(Abs()), writeEnd)
    {
      if used {
        if writeEnd {
          if writers > 0 { writers := writers - 1; }
        } else if readers > 0 {
          readers := readers - 1;
        }
        ends := Closed(ends, writeEnd);
        if readers == 0 && writers == 0 { Clear(false); }
      }
    }

    method DiscardIdle()
      requires Valid()
      modifies this, buf
      ensures Valid() && Abs() == Discard(old(Abs()))
    {
      if readers == 0 && writers == 0 { Clear(false); }
    }

    /** At most two copies out of the ring. */
    method CopyOut(dst: array<byte>, n: nat)
      requires Valid() && dst != buf && n <= dst.Length && n <= count
      modifies dst
      ensures dst[..n] == Ring(buf[..], rpos, count)[..n] && AgreeOutside(old(dst[..]), dst[..], 0, n)
    {
      hide Ring, AgreeOutside;
      var n1 := Min(cap - rpos, n);
      var front, back := buf[..][rpos..rpos + n1], buf[..][..n - n1];
      RingSplit(buf[..], rpos, count, n);
      Paste(dst, 0, front);
      ghost var first := dst[..];
      assert first[..n1] == dst[0..0 + n1];
      Paste(dst, n1, back);
      assert dst[..][n1..n] == dst[n1..n1 + |back|];
      TwoPastes(old(dst[..]), first, dst[..], front, back);
      assert dst[..][..n] == dst[..n];
    }

    /** lxp_ring_read. */
    method Drain(dst: array<byte>, len: nat) returns (n: nat)
      requires Valid() && dst != buf && len <= dst.Length
      modifies this, dst
      ensures Valid() && n == Min(len, old(count)) && AgreeOutside(old(dst[..]), dst[..], 0, n)
      ensures dst[..n] == old(Abs()).data[..n]
      ensures Abs() ==
          old(Abs()).(data := old(Abs()).data[n..], delivered := old(Abs()).delivered + old(Abs()).data[..n])
    {
      hide Ring;
      n := Min(len, count);
      CopyOut(dst, n);
      RingSplit(buf[..], rpos, count, n);
      ModOnce(rpos + n, cap);
      delivered := delivered + dst[..n];
      rpos := (rpos + n) % cap;
      count := count - n;
    }

    /** At most two copies into the ring. */
    method CopyIn(src: seq<byte>)
      requires Valid() && count + |src| <= cap
      modifies buf
      ensures Ring(buf[..], rpos, count + |src|) == Ring(old(buf[..]), rpos, count) + src
    {
      hide Ring, AgreeOutside;
      var n1 := Min(cap - wpos, |src|);
      ghost var b := buf[..];
      Paste(buf, wpos, src[..n1]);
      ghost var m := buf[..];
      assert m[wpos..wpos + n1] == src[..n1];
      Paste(buf, 0, src[n1..]);
      assert buf[..][..|src| - n1] == buf[0..0 + |src[n1..]|];
      RingJoin(b, m, buf[..], rpos, count, src);
    }

    /** lxp_ring_write. */
    method Fill(src: seq<byte>) returns (n: nat)
      requires Valid()
      modifies this, buf
      ensures Valid() && n == Min(|src|, cap - old(count))
      ensures Abs() == old(Abs()).(data := old(Abs()).data + src[..n], accepted := old(Abs()).accepted + src[..n])
    {
      hide Ring;
      n := Min(|src|, cap - count);
      CopyIn(src[..n]);
      ModOnce(wpos + n, cap);
      wpos := (wpos + n) % cap;
      count := count + n;
      accepted := accepted + src[..n];
    }

    method TryRead(dst: array<byte>, len: nat) returns (a: Answer)
      requires Valid() && dst != buf && len <= dst.Length
      modifies this, dst
      ensures Valid() && (Abs(), a) == Read(old(Abs()), len)
      ensures a.Count? ==> a.n <= len && dst[..a.n] == Abs().delivered[|old(delivered)|..]
      ensures AgreeOutside(old(dst[..]), dst[..], 0, if a.Count? then a.n else 0)
    {
      if count == 0 {
        a := if writers > 0 then EAGAIN else Count(0);
      } else {
        var n := Drain(dst, len);
        a := Count(n);
      }
    }

    method TryWrite(src: seq<byte>) returns (a: Answer)
      requires Valid()
      modifies this, buf
      ensures Valid() && (Abs(), a) == Write(old(Abs()), cap, src)
    {
      if readers == 0 {
        a := EPIPE;
      } else if count == cap {
        a := EAGAIN;
      } else {
        var n := Fill(src);
        a := Count(n);
      }
    }

    method Poll(writeEnd: bool) returns (ready: bool)
      requires Valid()
      ensures ready == Ready(Abs(), cap, writeEnd)
    {
      ready := if writeEnd then count < cap || readers == 0 else count > 0 || writers == 0;
    }
  }

  ghost predicate Pool(pipes: seq<Pipe>)
    reads pipes, set p | p in pipes :: p.buf
  {
    && (forall i :: 0 <= i < |pipes| ==> pipes[i].Valid())
    && (forall i, j :: 0 <= i < j < |pipes| ==> pipes[i] != pipes[j] && pipes[i].buf != pipes[j].buf)
  }

  /** The first unused pipe, emptied and marked used, or none; no other pipe changes. */
  method Alloc(pipes: seq<Pipe>) returns (k: int)
    requires Pool(pipes)
    modifies pipes, set p | p in pipes :: p.buf
    ensures Pool(pipes)
    ensures k < 0 <==> forall i :: 0 <= i < |pipes| ==> old(pipes[i].used)
    ensures k >= 0 ==> k < |pipes| && !old(pipes[k].used) && forall i :: 0 <= i < k ==> old(pipes[i].used)
    ensures k >= 0 ==> pipes[k].Abs() == UNUSED.(used := true)
    ensures forall i :: 0 <= i < |pipes| && i != k ==> pipes[i].Abs() == old(pipes[i].Abs())
  {
    k := 0;
    while k < |pipes|
      invariant 0 <= k <= |pipes| && forall i :: 0 <= i < k ==> pipes[i].used
    {
      if !pipes[k].used {
        pipes[k].Clear(true);
        return;
      }
      k := k + 1;
    }
    k := -1;
  }
}
