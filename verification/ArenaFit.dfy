/** How much an allocation takes and what it leaves: no request swallows more than it needs, the
    surplus comes back as a free block, and requests that fit together are all served. */
module ArenaFit {
  import opened ArenaBlocks
  import opened ArenaCalls

  // ---- one request --------------------------------------------------------------------

  /** The extent c, made of the blocks `gone`, is cut for a request of need bytes: the front is live
      with less than a header and a minimum slot to spare, the surplus is a free block behind it, and
      the other blocks are as before. */
  ghost predicate Cut(before: seq<Block>, after: seq<Block>, gone: set<Block>, c: Block, need: nat) {
    var big := c.payload >= need + HDR + ALIGN;
    && need <= c.payload
    && var front := Block(c.addr, if big then need else c.payload, false);
    && front in after && front.payload < need + HDR + ALIGN
    && (big ==> Block(c.Data() + need, c.payload - need - HDR, true) in after)
    && (forall x :: x in before && x !in gone ==> x in after)
    && (forall x :: x in after && x !in before ==>
          x == front || (big && x == Block(c.Data() + need, c.payload - need - HDR, true)))
  }

  lemma TakeCuts(bs: seq<Block>, i: nat, need: nat)
    requires i < |bs| && bs[i].free && need <= bs[i].payload
    ensures Cut(bs, TakeAt(bs, i, need), {bs[i]}, bs[i], need)
  {
    var t, y := TakeAt(bs, i, need), Carve(bs[i], need);
    assert bs == bs[..i] + [bs[i]] + bs[i + 1..];
    assert y[0] in y && y[|y| - 1] in y;
    assert forall x :: x in t <==> x in bs[..i] || x in y || x in bs[i + 1..];
  }

  lemma GrowCuts(bs: seq<Block>, i: nat, need: nat)
    requires i < |bs| && CanGrow(bs, i, need)
    ensures Cut(bs, GrowAt(bs, i, need), {bs[i], bs[i + 1]}, Fused(bs, i), need)
  {
    var t, y := GrowAt(bs, i, need), Carve(Fused(bs, i), need);
    assert bs == bs[..i] + [bs[i], bs[i + 1]] + bs[i + 2..];
    assert y[0] in y && y[|y| - 1] in y;
    assert forall x :: x in t <==> x in bs[..i] || x in y || x in bs[i + 2..];
  }

  /** A successful allocation cuts the lowest free block that fits. */
  lemma AllocCuts(s: State, n: nat, lo: nat, hi: nat) returns (c: Block)
    requires Chain(s.blocks, lo, hi) && AllocCall(s, n).1 != 0
    ensures var (t, q) := AllocCall(s, n);
            && c in s.blocks && c.free && c.Data() == q
            && Cut(s.blocks, t.blocks, {c}, c, Need(n))
            && (forall x :: x in s.blocks && x.free && x.payload >= Need(n) ==> c.addr <= x.addr)
  {
    var i := FirstFit(s.blocks, Need(n));
    c := s.blocks[i];
    TakeCuts(s.blocks, i, Need(n));
    forall x | x in s.blocks && x.free && x.payload >= Need(n) ensures c.addr <= x.addr {
      var j :| 0 <= j < |s.blocks| && s.blocks[j] == x;
      if i < j { ChainOrder(s.blocks, lo, hi, i, j); }
    }
  }

  // ---- growing ------------------------------------------------------------------------

  /** The live block at p is b, and the bytes behind it up to need are its own or those of a free
      successor c. */
  ghost predicate RoomBehind(bs: seq<Block>, b: Block, c: Block, need: nat) {
    c in bs && c.free && c.addr == b.End() && b.payload + HDR + c.payload >= need
  }

  lemma RoomIff(bs: seq<Block>, lo: nat, hi: nat, i: nat, need: nat)
    requires Chain(bs, lo, hi) && i < |bs|
    ensures CanGrow(bs, i, need) <==> exists c :: RoomBehind(bs, bs[i], c, need)
    ensures forall c :: RoomBehind(bs, bs[i], c, need) ==> i + 1 < |bs| && c == bs[i + 1]
  {
    if CanGrow(bs, i, need) {
      NextAddr(bs, lo, hi, i);
      assert RoomBehind(bs, bs[i], bs[i + 1], need);
    }
    forall c | RoomBehind(bs, bs[i], c, need) ensures i + 1 < |bs| && c == bs[i + 1] {
      var j :| 0 <= j < |bs| && bs[j] == c;
      if j < i { ChainOrder(bs, lo, hi, j, i); }
      assert j > i;
      NextAddr(bs, lo, hi, i);
      if i + 1 < j { ChainAt(bs, lo, hi, i + 1); ChainOrder(bs, lo, hi, i + 1, j); }
    }
  }

  /** What realloc answers for a live block: the same address exactly when the block is large enough
      or has room behind it, 0 exactly when it has not and no free block fits either. */
  lemma ReallocAnswer(s: State, b: Block, n: nat, lo: nat, hi: nat)
    requires Good(s, lo, hi) && b in s.blocks && !b.free
    ensures var q := ReallocCall(s, b.Data(), n).1;
            var inPlace := Need(n) <= b.payload || exists c :: RoomBehind(s.blocks, b, c, Need(n));
            var fits := exists x :: x in s.blocks && x.free && x.payload >= Need(n);
            && (q == b.Data() <==> Need(n) != 0 && inPlace)
            && (q == 0 <==> Need(n) == 0 || (!inPlace && !fits))
  {
    var i :| 0 <= i < |s.blocks| && s.blocks[i] == b;
    LiveUnique(s.blocks, lo, hi, i);
    RoomIff(s.blocks, lo, hi, i, Need(n));
    AllocFailsIff(s, n);
    if Need(n) != 0 && Need(n) > b.payload && !CanGrow(s.blocks, i, Need(n)) && AllocCall(s, n).1 != 0 {
      MoveGood(s, b.Data(), n, i, lo, hi);
    }
  }

  /** Growing in place cuts the block and its free successor, taken together. */
  lemma GrowInPlace(s: State, b: Block, c: Block, n: nat, lo: nat, hi: nat)
    requires Good(s, lo, hi) && b in s.blocks && !b.free && b.payload < Need(n)
    requires RoomBehind(s.blocks, b, c, Need(n))
    ensures ReallocCall(s, b.Data(), n).1 == b.Data()
    ensures Cut(s.blocks, ReallocCall(s, b.Data(), n).0.blocks, {b, c},
                Block(b.addr, b.payload + HDR + c.payload, true), Need(n))
  {
    hide Chain, Coalesced, Tracked, FreeAt, GrowAt, TakeAt, Need, MoveRecord, Relength, UsedSum, Cut;
    var i :| 0 <= i < |s.blocks| && s.blocks[i] == b;
    LiveUnique(s.blocks, lo, hi, i);
    RoomIff(s.blocks, lo, hi, i, Need(n));
    GrowCuts(s.blocks, i, Need(n));
  }

  // ---- many requests --------------------------------------------------------------------

  /** The bytes a list of requests takes, headers included. */
  function Total(ns: seq<nat>): nat { if ns == [] then 0 else HDR + Need(ns[0]) + Total(ns[1..]) }

  /** Requests made one after the other, and what each was answered. */
  function AllocAll(s: State, ns: seq<nat>): (State, seq<nat>)
    decreases |ns|
  {
    if ns == [] then (s, [])
    else
      var (t, q) := AllocCall(s, ns[0]);
      var (u, qs) := AllocAll(t, ns[1..]);
      (u, [q] + qs)
  }

  predicate AllServed(s: State, ns: seq<nat>) { 0 !in AllocAll(s, ns).1 }

  lemma ServedHead(s: State, ns: seq<nat>)
    requires ns != []
    ensures AllServed(s, ns) <==> AllocCall(s, ns[0]).1 != 0 && AllServed(AllocCall(s, ns[0]).0, ns[1..])
  {
    var (t, q) := AllocCall(s, ns[0]);
    var (u, qs) := AllocAll(t, ns[1..]);
    assert [q] + qs == AllocAll(s, ns).1;
    assert 0 in [q] + qs <==> q == 0 || 0 in qs;
  }

  lemma TotalLeast(ns: seq<nat>)
    requires ns != [] && forall n :: n in ns ==> Need(n) != 0
    ensures Total(ns) >= HDR + ALIGN
  {
    assert ns[0] in ns;
  }

  /** After a request some free block still has room for the footprints that were to follow it. */
  lemma RoomLeft(s: State, n: nat, c: Block, more: nat, lo: nat, hi: nat) returns (e: Block)
    requires Chain(s.blocks, lo, hi) && c in s.blocks && c.free && Need(n) != 0
    requires more >= HDR + ALIGN && HDR + Need(n) + more <= HDR + c.payload
    ensures AllocCall(s, n).1 != 0 && e in AllocCall(s, n).0.blocks && e.free && more <= HDR + e.payload
  {
    hide Chain, TakeAt;
    AllocFailsIff(s, n);
    var d := AllocCuts(s, n, lo, hi);
    e := if d == c then Block(c.Data() + Need(n), c.payload - Need(n) - HDR, true) else c;
  }

  /** Requests whose footprints fit one free extent are all served, whatever else is free. */
  lemma {:induction false} FitTogether(s: State, ns: seq<nat>, c: Block, lo: nat, hi: nat)
    requires Chain(s.blocks, lo, hi) && c in s.blocks && c.free && Total(ns) <= HDR + c.payload
    requires forall n :: n in ns ==> Need(n) != 0
    ensures AllServed(s, ns)
    decreases |ns|
  {
    hide Chain, AllocCall, AllServed, Need;
    if ns == [] {
      assert AllServed(s, ns) by { ServedNone(s); }
    } else {
      assert ns[0] in ns;
      var t := AllocCall(s, ns[0]).0;
      AllocChain(s, ns[0], lo, hi);
      forall n | n in ns[1..] ensures Need(n) != 0 { assert n in ns; }
      if ns[1..] == [] {
        AllocFailsIff(s, ns[0]);
        ServedNone(t);
      } else {
        TotalLeast(ns[1..]);
        var e := RoomLeft(s, ns[0], c, Total(ns[1..]), lo, hi);
        FitTogether(t, ns[1..], e, lo, hi);
      }
      ServedHead(s, ns);
    }
  }

  lemma ServedNone(s: State)
    ensures AllServed(s, [])
  {
  }

  /** Requests that are all served add at least their footprints to the used bytes. */
  lemma {:induction false} ServedUse(s: State, ns: seq<nat>, lo: nat, hi: nat)
    requires Chain(s.blocks, lo, hi) && AllServed(s, ns)
    ensures UsedSum(s.blocks) + Total(ns) <= hi - lo
    ensures forall n :: n in ns ==> Need(n) != 0
    decreases |ns|
  {
    hide Chain;
    if ns == [] {
      UsedBounded(s.blocks, lo, hi);
    } else {
      ServedHead(s, ns);
      AllocFailsIff(s, ns[0]);
      AllocChain(s, ns[0], lo, hi);
      var i := FirstFit(s.blocks, Need(ns[0]));
      TakeKeeps(s.blocks, lo, hi, i, Need(ns[0]));
      ServedUse(AllocCall(s, ns[0]).0, ns[1..], lo, hi);
      assert ns == [ns[0]] + ns[1..];
    }
  }

  /** A fresh arena serves a list of requests exactly when no size wraps and the footprints add up to
      at most its size. */
  lemma FreshServesIff(ns: seq<nat>, lo: nat, hi: nat, slots: nat)
    requires lo % ALIGN == 0 && (hi - lo) % ALIGN == 0 && lo + HDR + ALIGN <= hi
    ensures AllServed(Fresh(lo, hi, slots), ns) <==>
            Total(ns) <= hi - lo && forall n :: n in ns ==> Need(n) != 0
  {
    var s := Fresh(lo, hi, slots);
    FreshGood(lo, hi, slots, 0);
    assert s.(high := 0) == s;
    if AllServed(s, ns) {
      ServedUse(s, ns, lo, hi);
    }
    if Total(ns) <= hi - lo && forall n :: n in ns ==> Need(n) != 0 {
      FitTogether(s, ns, s.blocks[0], lo, hi);
    }
  }

  // ---- the high-water mark ----------------------------------------------------------------

  /** The most bytes in use at any moment of the call c: after it, and for a realloc that moves its
      block also while the old and the new block are both live. */
  ghost function Peak(s: State, c: Call, lo: nat, hi: nat): nat
    requires lo + HDR <= hi
  {
    UsedSum(Step(s, c, lo, hi).blocks) +
    (match c
     case Realloc(p, n) =>
       var i := LiveAt(s.blocks, p);
       if p != 0 && ReallocCall(s, p, n).1 !in {0, p} && i < |s.blocks| then HDR + s.blocks[i].payload else 0
     case _ => 0)
  }

  /** Every call raises the mark exactly to what was in use at its peak. */
  lemma HighExact(s: State, c: Call, lo: nat, hi: nat)
    requires (hi - lo) % ALIGN == 0 && lo + HDR + ALIGN <= hi && Good(s, lo, hi)
    ensures Step(s, c, lo, hi).high == Max(s.high, Peak(s, c, lo, hi))
  {
    match c
    case Alloc(n) => AllocFailsIff(s, n);
    case Calloc(n) => AllocFailsIff(s, n);
    case AllocTracked(n) => AllocFailsIff(s, n);
    case Realloc(p, n) => HighRealloc(s, p, n, lo, hi);
    case Free(p) =>
      var i := LiveAt(s.blocks, p);
      if p != 0 && i < |s.blocks| { FreeKeeps(s.blocks, lo, hi, i); }
    case FreeTracked(p, n) =>
      var i := LiveAt(s.blocks, p);
      if FreeTrackedCall(s, p, n).1 { FreeKeeps(s.blocks, lo, hi, i); }
    case Reset => UsedPair(Block(lo, hi - lo - HDR, true), Block(lo, hi - lo - HDR, true));
  }

  lemma HighRealloc(s: State, p: nat, n: nat, lo: nat, hi: nat)
    requires lo + HDR <= hi && Good(s, lo, hi)
    ensures ReallocCall(s, p, n).0.high == Max(s.high, Peak(s, Realloc(p, n), lo, hi))
  {
    hide Chain, Coalesced, Tracked, FreeAt, GrowAt, TakeAt, Need, MoveRecord, Relength, UsedSum;
    AllocFailsIff(s, n);
    var i := LiveAt(s.blocks, p);
    if p != 0 && Need(n) != 0 && i < |s.blocks| && Need(n) > s.blocks[i].payload
       && !CanGrow(s.blocks, i, Need(n)) && AllocCall(s, n).1 != 0 {
      MoveGood(s, p, n, i, lo, hi);
      MoveUse(s, p, n, i, lo, hi);
    }
  }

  /** A block that is moved keeps its size until it is released. */
  lemma MoveUse(s: State, p: nat, n: nat, i: nat, lo: nat, hi: nat)
    requires Good(s, lo, hi) && i < |s.blocks| && !s.blocks[i].free && s.blocks[i].Data() == p
    requires AllocCall(s, n).1 != 0 && p != 0
    ensures var t := AllocCall(s, n).0;
            var k := LiveAt(t.blocks, p);
            k < |t.blocks| && UsedSum(FreeAt(t.blocks, k)) + HDR + s.blocks[i].payload == UsedSum(t.blocks)
  {
    MoveGood(s, p, n, i, lo, hi);
    var t := AllocCall(s, n).0;
    var k := LiveAt(t.blocks, p);
    AllocChain(s, n, lo, hi);
    var c := AllocCuts(s, n, lo, hi);
    assert s.blocks[i] in t.blocks;
    var j :| 0 <= j < |t.blocks| && t.blocks[j] == s.blocks[i];
    LiveUnique(t.blocks, lo, hi, j);
    FreeKeeps(t.blocks, lo, hi, k);
  }

  /** The greatest peak of a run. */
  ghost function MaxPeak(s: State, calls: seq<Call>, lo: nat, hi: nat): nat
    requires lo + HDR <= hi
    decreases |calls|
  {
    if calls == [] then 0
    else Max(Peak(s, calls[0], lo, hi), MaxPeak(Step(s, calls[0], lo, hi), calls[1..], lo, hi))
  }

  lemma {:induction false} HighRun(s: State, calls: seq<Call>, lo: nat, hi: nat)
    requires (hi - lo) % ALIGN == 0 && lo + HDR + ALIGN <= hi && Good(s, lo, hi)
    ensures Run(s, calls, lo, hi).high == Max(s.high, MaxPeak(s, calls, lo, hi))
    decreases |calls|
  {
    if calls != [] {
      HighExact(s, calls[0], lo, hi);
      StepGood(s, calls[0], lo, hi);
      HighRun(Step(s, calls[0], lo, hi), calls[1..], lo, hi);
    }
  }

  // ---- records ------------------------------------------------------------------------------

  /** The table rs became us in slot j alone. */
  predicate OneSlot(rs: seq<Record>, us: seq<Record>, j: int) {
    |us| == |rs| && 0 <= j < |rs| && us == rs[j := us[j]]
  }

  /** A tracked allocation succeeds exactly when a record is free and the plain one succeeds; it
      leaves what the plain one leaves, and one record more. */
  lemma AllocTrackedIff(s: State, n: nat)
    ensures var (t, p) := AllocTrackedCall(s, n);
            && (p != 0 <==> AllocCall(s, n).1 != 0 && exists r :: r in s.records && r.addr == 0)
            && (p == 0 ==> t == s)
            && (p != 0 ==> p == AllocCall(s, n).1 && t.blocks == AllocCall(s, n).0.blocks
                           && exists j :: OneSlot(s.records, t.records, j) && s.records[j].addr == 0
                                          && t.records[j] == Record(p, n))
  {
    var j := FindAddr(s.records, 0);
    if j < |s.records| {
      assert s.records[j] in s.records;
      var (t, p) := AllocTrackedCall(s, n);
      if p != 0 { assert OneSlot(s.records, t.records, j); }
    }
  }

  /** A free drops the records of its own address and no other. */
  lemma FreeRecords(s: State, p: nat, k: nat)
    requires FreeCall(s, p).1 && k < |s.records|
    ensures |FreeCall(s, p).0.records| == |s.records|
    ensures FreeCall(s, p).0.records[k] == if s.records[k].addr == p then Record(0, 0) else s.records[k]
  {
  }

  /** A tracked free empties one slot, the pair's own. */
  lemma FreeTrackedRecords(s: State, p: nat, n: nat)
    requires FreeTrackedCall(s, p, n).1
    ensures exists j :: OneSlot(s.records, FreeTrackedCall(s, p, n).0.records, j)
                        && s.records[j] == Record(p, n)
    ensures FreeTrackedCall(s, p, n).0.blocks == FreeCall(s, p).0.blocks
  {
    var j := FindRecord(s.records, Record(p, n));
    assert OneSlot(s.records, FreeTrackedCall(s, p, n).0.records, j);
  }

  /** A realloc that has to enlarge the block records the new length, and one that finds it large
      enough leaves the record as it was. */
  lemma ReallocLength(s: State, b: Block, n: nat, j: nat, lo: nat, hi: nat)
    requires Good(s, lo, hi) && b in s.blocks && !b.free && j < |s.records| && s.records[j].addr == b.Data()
    requires ReallocCall(s, b.Data(), n).1 != 0
    ensures |ReallocCall(s, b.Data(), n).0.records| == |s.records|
    ensures ReallocCall(s, b.Data(), n).0.records[j].len == if Need(n) <= b.payload then s.records[j].len else n
  {
    var i :| 0 <= i < |s.blocks| && s.blocks[i] == b;
    LiveUnique(s.blocks, lo, hi, i);
    assert FindAddr(s.records, b.Data()) == j;
  }
}
