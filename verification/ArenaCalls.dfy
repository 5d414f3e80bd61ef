/** Whole runs of the arena interface over block lists: the state each call leaves, and what
    every reachable state keeps. */
module ArenaCalls {
  import opened ArenaBlocks

  /** A privileged record of a tracked extent; address 0 is an empty slot. */
  datatype Record = Record(addr: nat, len: nat)

  datatype State = State(blocks: seq<Block>, high: nat, records: seq<Record>)

  datatype Call =
    | Alloc(n: nat)
    | Calloc(n: nat)
    | Realloc(p: nat, n: nat)
    | Free(p: nat)
    | AllocTracked(n: nat)
    | FreeTracked(p: nat, n: nat)
    | Reset

  function Max(a: nat, b: nat): nat { if a < b then b else a }

  function Fresh(lo: nat, hi: nat, slots: nat): State
    requires lo + HDR <= hi
  {
    State([Block(lo, hi - lo - HDR, true)], 0, EmptyRecords(slots))
  }

  function EmptyRecords(slots: nat): seq<Record> { seq(slots, _ => Record(0, 0)) }

  /** Index of a live block with payload p, or |bs|. */
  function LiveAt(bs: seq<Block>, p: nat): (i: nat)
    ensures i <= |bs|
    ensures i < |bs| ==> bs[i].Data() == p && !bs[i].free
  {
    var i := FindData(bs, p);
    if i < |bs| && !bs[i].free then i else |bs|
  }

  function AllocCall(s: State, n: nat): (State, nat) {
    var need := Need(n);
    var i := FirstFit(s.blocks, need);
    if need == 0 || i == |s.blocks| then (s, 0)
    else
      var bs := TakeAt(s.blocks, i, need);
      (State(bs, Max(s.high, UsedSum(bs)), s.records), s.blocks[i].Data())
  }

  function ClearRecords(rs: seq<Record>, p: nat): (r: seq<Record>)
    ensures |r| == |rs|
  {
    seq(|rs|, i requires 0 <= i < |rs| => if rs[i].addr == p then Record(0, 0) else rs[i])
  }

  function Relength(rs: seq<Record>, p: nat, n: nat): (r: seq<Record>)
    ensures |r| == |rs|
  {
    seq(|rs|, i requires 0 <= i < |rs| => if rs[i].addr == p then Record(p, n) else rs[i])
  }

  /** First record naming address p, or |rs|. */
  function FindAddr(rs: seq<Record>, p: nat): (j: nat)
    ensures j <= |rs|
    ensures j < |rs| ==> rs[j].addr == p
    ensures forall k :: 0 <= k < j ==> rs[k].addr != p
  {
    if rs == [] then 0 else if rs[0].addr == p then 0 else 1 + FindAddr(rs[1..], p)
  }

  /** First record equal to (p, n), or |rs|. */
  function FindRecord(rs: seq<Record>, r: Record): (j: nat)
    ensures j <= |rs|
    ensures j < |rs| ==> rs[j] == r
    ensures forall k :: 0 <= k < j ==> rs[k] != r
  {
    if rs == [] then 0 else if rs[0] == r then 0 else 1 + FindRecord(rs[1..], r)
  }

  function FreeCall(s: State, p: nat): (State, bool) {
    var i := LiveAt(s.blocks, p);
    if p == 0 || i == |s.blocks| then (s, false)
    else (State(FreeAt(s.blocks, i), s.high, ClearRecords(s.records, p)), true)
  }

  function MoveRecord(rs: seq<Record>, p: nat, q: nat, n: nat): seq<Record> {
    var j := FindAddr(rs, p);
    if j == |rs| then rs else rs[j := Record(q, n)]
  }

  /** The outcome of growing the live block i in place or by allocate, copy and free. */
  function Enlarge(s: State, p: nat, n: nat, i: nat): (State, nat)
    requires i < |s.blocks|
  {
    var need := Need(n);
    if CanGrow(s.blocks, i, need) then
      var bs := GrowAt(s.blocks, i, need);
      (State(bs, Max(s.high, UsedSum(bs)), Relength(s.records, p, n)), p)
    else
      var (t, q) := AllocCall(s, n);
      if q == 0 then (s, 0)
      else
        var k := LiveAt(t.blocks, p);
        if k == |t.blocks| then (s, 0)
        else (State(FreeAt(t.blocks, k), t.high, MoveRecord(t.records, p, q, n)), q)
  }

  function ReallocCall(s: State, p: nat, n: nat): (State, nat) {
    if p == 0 then AllocCall(s, n)
    else
      var i := LiveAt(s.blocks, p);
      if Need(n) == 0 || i == |s.blocks| then (s, 0)
      else if Need(n) <= s.blocks[i].payload then (s, p)
      else Enlarge(s, p, n, i)
  }

  function AllocTrackedCall(s: State, n: nat): (State, nat) {
    var j := FindAddr(s.records, 0);
    if j == |s.records| then (s, 0)
    else
      var (t, p) := AllocCall(s, n);
      if p == 0 then (s, 0) else (t.(records := t.records[j := Record(p, n)]), p)
  }

  function FreeTrackedCall(s: State, p: nat, n: nat): (State, bool) {
    var j := FindRecord(s.records, Record(p, n));
    var i := LiveAt(s.blocks, p);
    if p == 0 || j == |s.records| || i == |s.blocks| then (s, false)
    else (State(FreeAt(s.blocks, i), s.high, s.records[j := Record(0, 0)]), true)
  }

  function Step(s: State, c: Call, lo: nat, hi: nat): State
    requires lo + HDR <= hi
  {
    match c
    case Alloc(n) => AllocCall(s, n).0
    case Calloc(n) => AllocCall(s, n).0
    case Realloc(p, n) => ReallocCall(s, p, n).0
    case Free(p) => FreeCall(s, p).0
    case AllocTracked(n) => AllocTrackedCall(s, n).0
    case FreeTracked(p, n) => FreeTrackedCall(s, p, n).0
    case Reset => Fresh(lo, hi, |s.records|).(high := s.high)
  }

  function Run(s: State, calls: seq<Call>, lo: nat, hi: nat): State
    requires lo + HDR <= hi
    decreases |calls|
  {
    if calls == [] then s
    else Run(Step(s, calls[0], lo, hi), calls[1..], lo, hi)
  }

  // ---- the invariant ------------------------------------------------------------

  /** Some live block starts at p and holds at least len bytes. */
  ghost predicate Holds(bs: seq<Block>, p: nat, len: nat) {
    exists b :: b in bs && !b.free && b.Data() == p && len <= b.payload
  }

  /** Each record names a live block that covers its length, and no two name the same one. */
  ghost predicate Tracked(bs: seq<Block>, rs: seq<Record>) {
    && (forall i :: 0 <= i < |rs| && rs[i].addr != 0 ==> Holds(bs, rs[i].addr, rs[i].len))
    && (forall i, j :: 0 <= i < j < |rs| && rs[i].addr != 0 ==> rs[i].addr != rs[j].addr)
  }

  ghost predicate Good(s: State, lo: nat, hi: nat) {
    && lo % ALIGN == 0
    && Chain(s.blocks, lo, hi)
    && Coalesced(s.blocks)
    && UsedSum(s.blocks) <= s.high <= hi - lo
    && Tracked(s.blocks, s.records)
  }

  // ---- per-call lemmas ------------------------------------------------------------

  lemma LiveUnique(bs: seq<Block>, lo: nat, hi: nat, j: nat)
    requires Chain(bs, lo, hi) && j < |bs|
    ensures FindData(bs, bs[j].Data()) == j
  {
    var i := FindData(bs, bs[j].Data());
    if i < j {
      ChainOrder(bs, lo, hi, i, j);
    }
  }

  lemma HoldsAt(bs: seq<Block>, lo: nat, hi: nat, p: nat, len: nat)
    requires Chain(bs, lo, hi) && Holds(bs, p, len)
    ensures LiveAt(bs, p) < |bs| && len <= bs[LiveAt(bs, p)].payload
  {
    var b :| b in bs && !b.free && b.Data() == p && len <= b.payload;
    var j :| 0 <= j < |bs| && bs[j] == b;
    LiveUnique(bs, lo, hi, j);
  }

  /** Allocation returns an address no live block had, backed by enough bytes. */
  lemma AllocFresh(s: State, n: nat, lo: nat, hi: nat)
    requires Chain(s.blocks, lo, hi) && AllocCall(s, n).1 != 0
    ensures !Holds(s.blocks, AllocCall(s, n).1, 0)
    ensures Holds(AllocCall(s, n).0.blocks, AllocCall(s, n).1, Need(n))
    ensures n <= Need(n)
  {
    var i := FirstFit(s.blocks, Need(n));
    LiveUnique(s.blocks, lo, hi, i);
    ChainAt(s.blocks, lo, hi, i);
    if Holds(s.blocks, s.blocks[i].Data(), 0) {
      HoldsAt(s.blocks, lo, hi, s.blocks[i].Data(), 0);
    }
    var y := Carve(s.blocks[i], Need(n));
    assert y[0] in AllocCall(s, n).0.blocks by {
      assert TakeAt(s.blocks, i, Need(n))[i] == y[0];
    }
  }

  lemma AllocHolds(s: State, n: nat, p: nat, len: nat)
    requires Holds(s.blocks, p, len)
    ensures Holds(AllocCall(s, n).0.blocks, p, len)
  {
    var i := FirstFit(s.blocks, Need(n));
    if Need(n) != 0 && i < |s.blocks| {
      var b :| b in s.blocks && !b.free && b.Data() == p && len <= b.payload;
      assert s.blocks == s.blocks[..i] + [s.blocks[i]] + s.blocks[i + 1..];
    }
  }

  lemma AllocChain(s: State, n: nat, lo: nat, hi: nat)
    requires Chain(s.blocks, lo, hi)
    ensures Chain(AllocCall(s, n).0.blocks, lo, hi)
    ensures Coalesced(s.blocks) ==> Coalesced(AllocCall(s, n).0.blocks)
    ensures UsedSum(s.blocks) <= s.high <= hi - lo
            ==> UsedSum(AllocCall(s, n).0.blocks) <= AllocCall(s, n).0.high <= hi - lo
  {
    var i := FirstFit(s.blocks, Need(n));
    if Need(n) != 0 && i < |s.blocks| {
      TakeKeeps(s.blocks, lo, hi, i, Need(n));
      UsedBounded(TakeAt(s.blocks, i, Need(n)), lo, hi);
    }
  }

  lemma AllocGood(s: State, n: nat, lo: nat, hi: nat)
    requires Good(s, lo, hi)
    ensures Good(AllocCall(s, n).0, lo, hi)
  {
    AllocChain(s, n, lo, hi);
    var t := AllocCall(s, n).0;
    forall i | 0 <= i < |t.records| && t.records[i].addr != 0
      ensures Holds(t.blocks, t.records[i].addr, t.records[i].len)
    {
      AllocHolds(s, n, t.records[i].addr, t.records[i].len);
    }
  }

  /** Releasing block i keeps every other live block. */
  lemma FreeHolds(bs: seq<Block>, i: nat, p: nat, len: nat)
    requires i < |bs| && Holds(bs, p, len) && bs[i].Data() != p
    ensures Holds(FreeAt(bs, i), p, len)
  {
    var b :| b in bs && !b.free && b.Data() == p && len <= b.payload;
    var j :| 0 <= j < |bs| && bs[j] == b;
    var l, h := MergeLo(bs, i), MergeHi(bs, i);
    if j < l {
      assert b in bs[..l];
    } else {
      assert j >= h;
      assert b == bs[h..][j - h];
    }
    assert b in FreeAt(bs, i);
  }

  lemma FreeGood(s: State, i: nat, rs: seq<Record>, lo: nat, hi: nat)
    requires Good(s, lo, hi) && i < |s.blocks| && !s.blocks[i].free
    requires |rs| == |s.records|
    requires forall j :: 0 <= j < |rs| ==>
                           if s.records[j].addr == s.blocks[i].Data() then rs[j].addr == 0 else rs[j] == s.records[j]
    ensures Good(State(FreeAt(s.blocks, i), s.high, rs), lo, hi)
  {
    FreeKeeps(s.blocks, lo, hi, i);
    FreeCoalesces(s.blocks, i);
    forall j | 0 <= j < |rs| && rs[j].addr != 0
      ensures Holds(FreeAt(s.blocks, i), rs[j].addr, rs[j].len)
    {
      FreeHolds(s.blocks, i, rs[j].addr, rs[j].len);
    }
  }

  lemma FreeTrackedGood(s: State, p: nat, n: nat, lo: nat, hi: nat)
    requires Good(s, lo, hi)
    ensures Good(FreeTrackedCall(s, p, n).0, lo, hi)
  {
    var j := FindRecord(s.records, Record(p, n));
    var i := LiveAt(s.blocks, p);
    if p != 0 && j < |s.records| && i < |s.blocks| {
      FreeGood(s, i, s.records[j := Record(0, 0)], lo, hi);
    }
  }

  lemma AllocTrackedGood(s: State, n: nat, lo: nat, hi: nat)
    requires Good(s, lo, hi)
    ensures Good(AllocTrackedCall(s, n).0, lo, hi)
  {
    var j := FindAddr(s.records, 0);
    var (t, p) := AllocCall(s, n);
    AllocGood(s, n, lo, hi);
    if j < |s.records| && p != 0 {
      AllocFresh(s, n, lo, hi);
      RecordFresh(s, p);
      assert Holds(t.blocks, p, n);
    }
  }

  lemma RecordFresh(s: State, p: nat)
    requires Tracked(s.blocks, s.records) && p != 0 && !Holds(s.blocks, p, 0)
    ensures forall k :: 0 <= k < |s.records| ==> s.records[k].addr != p
  {
  }

  lemma GrowHolds(bs: seq<Block>, i: nat, need: nat, p: nat, len: nat)
    requires i < |bs| && CanGrow(bs, i, need) && Holds(bs, p, len) && bs[i].Data() != p
    ensures Holds(GrowAt(bs, i, need), p, len)
  {
    var b :| b in bs && !b.free && b.Data() == p && len <= b.payload;
    var j :| 0 <= j < |bs| && bs[j] == b;
    if j < i {
      assert b in bs[..i];
    } else {
      assert b == bs[i + 2..][j - i - 2];
    }
    assert b in GrowAt(bs, i, need);
  }

  lemma GrowSelf(bs: seq<Block>, i: nat, need: nat)
    requires i < |bs| && CanGrow(bs, i, need)
    ensures Holds(GrowAt(bs, i, need), bs[i].Data(), need)
  {
    var y := Carve(Fused(bs, i), need);
    assert GrowAt(bs, i, need)[i] == y[0];
    assert y[0] in GrowAt(bs, i, need);
  }

  lemma GrowGood(s: State, p: nat, n: nat, i: nat, lo: nat, hi: nat)
    requires Good(s, lo, hi) && i < |s.blocks| && !s.blocks[i].free && s.blocks[i].Data() == p
    requires Need(n) > s.blocks[i].payload && CanGrow(s.blocks, i, Need(n))
    ensures Good(Enlarge(s, p, n, i).0, lo, hi)
  {
    var t := Enlarge(s, p, n, i).0;
    GrowKeeps(s.blocks, lo, hi, i, Need(n));
    UsedBounded(t.blocks, lo, hi);
    GrowSelf(s.blocks, i, Need(n));
    forall j | 0 <= j < |t.records| && t.records[j].addr != 0
      ensures Holds(t.blocks, t.records[j].addr, t.records[j].len)
    {
      if t.records[j].addr != p {
        GrowHolds(s.blocks, i, Need(n), t.records[j].addr, t.records[j].len);
      }
    }
  }

  /** After the replacement is allocated, the old block is still live and is released alone. */
  lemma MoveGood(s: State, p: nat, n: nat, i: nat, lo: nat, hi: nat)
    requires Good(s, lo, hi) && i < |s.blocks| && !s.blocks[i].free && s.blocks[i].Data() == p
    requires AllocCall(s, n).1 != 0 && p != 0
    ensures var (t, q) := AllocCall(s, n);
            var k := LiveAt(t.blocks, p);
            k < |t.blocks| && q != p
            && Good(State(FreeAt(t.blocks, k), t.high, MoveRecord(t.records, p, q, n)), lo, hi)
            && Holds(FreeAt(t.blocks, k), q, Need(n)) && n <= Need(n)
  {
    var (t, q) := AllocCall(s, n);
    assert s.blocks[i] in s.blocks;
    assert Holds(s.blocks, p, 0);
    AllocGood(s, n, lo, hi);
    AllocFresh(s, n, lo, hi);
    AllocHolds(s, n, p, 0);
    HoldsAt(t.blocks, lo, hi, p, 0);
    var k := LiveAt(t.blocks, p);
    FreeHolds(t.blocks, k, q, Need(n));
    MoveRecords(s, t, p, q, n, k, lo, hi);
  }

  lemma MoveRecords(s: State, t: State, p: nat, q: nat, n: nat, k: nat, lo: nat, hi: nat)
    requires Good(t, lo, hi) && t.records == s.records && Tracked(s.blocks, s.records)
    requires k < |t.blocks| && !t.blocks[k].free && t.blocks[k].Data() == p && p != 0 && q != 0 && q != p
    requires !Holds(s.blocks, q, 0) && Holds(FreeAt(t.blocks, k), q, Need(n)) && n <= Need(n)
    ensures Good(State(FreeAt(t.blocks, k), t.high, MoveRecord(t.records, p, q, n)), lo, hi)
  {
    var rs := ClearRecords(t.records, p);
    FreeGood(t, k, rs, lo, hi);
    RecordFresh(s, q);
    var j := FindAddr(t.records, p);
    var out := MoveRecord(t.records, p, q, n);
    if j == |t.records| {
      assert rs == out;
    } else {
      assert out == rs[j := Record(q, n)];
      assert Holds(FreeAt(t.blocks, k), q, n);
    }
  }

  lemma ReallocGood(s: State, p: nat, n: nat, lo: nat, hi: nat)
    requires Good(s, lo, hi)
    ensures Good(ReallocCall(s, p, n).0, lo, hi)
  {
    if p == 0 {
      AllocGood(s, n, lo, hi);
    } else {
      var i := LiveAt(s.blocks, p);
      if Need(n) != 0 && i < |s.blocks| && Need(n) > s.blocks[i].payload {
        if CanGrow(s.blocks, i, Need(n)) {
          GrowGood(s, p, n, i, lo, hi);
        } else if AllocCall(s, n).1 != 0 {
          MoveGood(s, p, n, i, lo, hi);
        }
      }
    }
  }

  lemma FreshGood(lo: nat, hi: nat, slots: nat, high: nat)
    requires lo % ALIGN == 0 && (hi - lo) % ALIGN == 0 && lo + HDR + ALIGN <= hi && high <= hi - lo
    ensures Good(Fresh(lo, hi, slots).(high := high), lo, hi)
  {
    ChainOne(Block(lo, hi - lo - HDR, true));
    UsedPair(Block(lo, hi - lo - HDR, true), Block(lo, hi - lo - HDR, true));
  }

  // ---- main results -------------------------------------------------------------

  lemma StepGood(s: State, c: Call, lo: nat, hi: nat)
    requires (hi - lo) % ALIGN == 0 && lo + HDR + ALIGN <= hi && Good(s, lo, hi)
    ensures Good(Step(s, c, lo, hi), lo, hi)
  {
    match c
    case Alloc(n) => AllocGood(s, n, lo, hi);
    case Calloc(n) => AllocGood(s, n, lo, hi);
    case Realloc(p, n) => ReallocGood(s, p, n, lo, hi);
    case Free(p) =>
      var i := LiveAt(s.blocks, p);
      if p != 0 && i < |s.blocks| {
        FreeGood(s, i, ClearRecords(s.records, p), lo, hi);
      }
    case AllocTracked(n) => AllocTrackedGood(s, n, lo, hi);
    case FreeTracked(p, n) => FreeTrackedGood(s, p, n, lo, hi);
    case Reset => FreshGood(lo, hi, |s.records|, s.high);
  }

  lemma {:induction false} RunFromGood(s: State, calls: seq<Call>, lo: nat, hi: nat)
    requires (hi - lo) % ALIGN == 0 && lo + HDR + ALIGN <= hi && Good(s, lo, hi)
    ensures Good(Run(s, calls, lo, hi), lo, hi)
    decreases |calls|
  {
    if calls != [] {
      StepGood(s, calls[0], lo, hi);
      RunFromGood(Step(s, calls[0], lo, hi), calls[1..], lo, hi);
    }
  }

  /** Every run from init: blocks tile the region, neighbours are coalesced, `used` stays below
      the high-water mark, and records name distinct live extents. */
  lemma RunGood(calls: seq<Call>, lo: nat, hi: nat, slots: nat)
    requires lo % ALIGN == 0 && (hi - lo) % ALIGN == 0 && lo + HDR + ALIGN <= hi
    ensures Good(Run(Fresh(lo, hi, slots), calls, lo, hi), lo, hi)
  {
    FreshGood(lo, hi, slots, 0);
    assert Fresh(lo, hi, slots).(high := 0) == Fresh(lo, hi, slots);
    RunFromGood(Fresh(lo, hi, slots), calls, lo, hi);
  }

  lemma SomeLive(bs: seq<Block>)
    requires |bs| > 1 && Coalesced(bs)
    ensures exists b :: b in bs && !b.free
  {
    assert bs[0] in bs && bs[1] in bs;
  }

  /** Whatever order the blocks were released in, an arena with no live block is one extent of
      the full size, with nothing used and no record left. */
  lemma AllFreedIsOneExtent(calls: seq<Call>, lo: nat, hi: nat, slots: nat)
    requires lo % ALIGN == 0 && (hi - lo) % ALIGN == 0 && lo + HDR + ALIGN <= hi
    requires forall b :: b in Run(Fresh(lo, hi, slots), calls, lo, hi).blocks ==> b.free
    ensures Run(Fresh(lo, hi, slots), calls, lo, hi).blocks == [Block(lo, hi - lo - HDR, true)]
    ensures UsedSum(Run(Fresh(lo, hi, slots), calls, lo, hi).blocks) == 0
    ensures forall r :: r in Run(Fresh(lo, hi, slots), calls, lo, hi).records ==> r.addr == 0
  {
    var s := Run(Fresh(lo, hi, slots), calls, lo, hi);
    RunGood(calls, lo, hi, slots);
    var bs := s.blocks;
    assert bs != [];
    if |bs| > 1 {
      SomeLive(bs);
      assert false;
    }
    assert bs[1..] == [];
    assert Chain(bs[1..], bs[0].End(), hi);
    assert bs == [bs[0]] && bs[0].End() == hi;
    assert bs[0] in bs;
    UsedPair(bs[0], bs[0]);
  }

  /** Allocation fails exactly when the request wraps or no free block can hold it. */
  lemma AllocFailsIff(s: State, n: nat)
    ensures AllocCall(s, n).1 == 0 <==>
            Need(n) == 0 || forall b :: b in s.blocks ==> !(b.free && b.payload >= Need(n))
    ensures AllocCall(s, n).1 == 0 ==> AllocCall(s, n).0 == s
  {
    var i := FirstFit(s.blocks, Need(n));
    if i < |s.blocks| {
      assert s.blocks[i] in s.blocks;
    }
  }

  /** In a reachable state a tracked free succeeds exactly for a recorded pair. */
  lemma FreeTrackedIff(s: State, p: nat, n: nat, lo: nat, hi: nat)
    requires Good(s, lo, hi)
    ensures FreeTrackedCall(s, p, n).1 <==> p != 0 && Record(p, n) in s.records
    ensures !FreeTrackedCall(s, p, n).1 ==> FreeTrackedCall(s, p, n).0 == s
    ensures FreeTrackedCall(s, p, n).1 ==> Record(p, n) !in FreeTrackedCall(s, p, n).0.records
  {
    var j := FindRecord(s.records, Record(p, n));
    if p != 0 && j < |s.records| {
      HoldsAt(s.blocks, lo, hi, p, n);
    }
  }

  /** A grown tracked block keeps exactly one record, naming its current address. */
  lemma ReallocRecord(s: State, p: nat, n: nat, j: nat, lo: nat, hi: nat)
    requires Good(s, lo, hi) && p != 0 && j < |s.records| && s.records[j].addr == p
    requires ReallocCall(s, p, n).1 != 0
    ensures var (t, q) := ReallocCall(s, p, n);
            t.records[j].addr == q && Holds(t.blocks, q, t.records[j].len) && Holds(t.blocks, q, n)
            && (forall k :: 0 <= k < |t.records| && k != j ==> t.records[k] == s.records[k] && t.records[k].addr != q)
  {
    ReallocGood(s, p, n, lo, hi);
    var i := LiveAt(s.blocks, p);
    var (t, q) := ReallocCall(s, p, n);
    assert FindAddr(s.records, p) == j;
    if Need(n) <= s.blocks[i].payload {
      assert s.blocks[i] in s.blocks;
      assert Holds(t.blocks, q, n);
    } else if CanGrow(s.blocks, i, Need(n)) {
      GrowSelf(s.blocks, i, Need(n));
      var b :| b in t.blocks && !b.free && b.Data() == p && Need(n) <= b.payload;
      assert Holds(t.blocks, q, n);
    } else {
      MoveGood(s, p, n, i, lo, hi);
    }
  }

  // ---- which addresses are live -------------------------------------------------------

  ghost function Live(bs: seq<Block>): set<nat> { set b | b in bs && !b.free :: b.Data() }

  lemma LiveParts(a: seq<Block>, b: seq<Block>)
    ensures Live(a + b) == Live(a) + Live(b)
  {
  }

  lemma LiveSplice(a: seq<Block>, x: seq<Block>, c: seq<Block>)
    ensures Live(a + x + c) == Live(a) + Live(x) + Live(c)
  {
    LiveParts(a + x, c);
    LiveParts(a, x);
  }

  lemma LiveTake(bs: seq<Block>, i: nat, need: nat)
    requires i < |bs| && bs[i].free && need <= bs[i].payload
    ensures Live(TakeAt(bs, i, need)) == Live(bs) + {bs[i].Data()}
  {
    assert bs == bs[..i] + [bs[i]] + bs[i + 1..];
    LiveSplice(bs[..i], [bs[i]], bs[i + 1..]);
    var y := Carve(bs[i], need);
    LiveSplice(bs[..i], y, bs[i + 1..]);
    assert y[0] in y;
    assert Live(y) == {bs[i].Data()};
    assert Live([bs[i]]) == {};
  }

  /** One live block, alone or before a free one. */
  lemma LivePair(x: seq<Block>, p: nat)
    requires 1 <= |x| <= 2 && !x[0].free && x[0].Data() == p && (|x| == 2 ==> x[1].free)
    ensures Live(x) == {p}
  {
    assert x[0] in x;
  }

  lemma LiveGrow(bs: seq<Block>, i: nat, need: nat)
    requires i < |bs| && !bs[i].free && CanGrow(bs, i, need)
    ensures Live(GrowAt(bs, i, need)) == Live(bs)
  {
    var x, y := [bs[i], bs[i + 1]], Carve(Fused(bs, i), need);
    assert bs == bs[..i] + x + bs[i + 2..];
    LiveSplice(bs[..i], x, bs[i + 2..]);
    LiveSplice(bs[..i], y, bs[i + 2..]);
    hide Live;
    LivePair(x, bs[i].Data());
    LivePair(y, bs[i].Data());
  }

  lemma FreedFrom(bs: seq<Block>, i: nat, b: Block, lo: nat, hi: nat)
    requires Chain(bs, lo, hi) && i < |bs| && b in FreeAt(bs, i) && !b.free
    ensures b in bs && b.Data() != bs[i].Data()
  {
    hide Merged, Chain;
    var l, h := MergeLo(bs, i), MergeHi(bs, i);
    assert b in bs[..l] || b in bs[h..];
    var j :| 0 <= j < |bs| && bs[j] == b && (j < l || j >= h);
    LiveUnique(bs, lo, hi, j);
    LiveUnique(bs, lo, hi, i);
  }

  lemma LiveFree(bs: seq<Block>, i: nat, lo: nat, hi: nat)
    requires Chain(bs, lo, hi) && i < |bs| && !bs[i].free
    ensures Live(FreeAt(bs, i)) == Live(bs) - {bs[i].Data()}
  {
    hide FreeAt, Chain;
    forall d | d in Live(bs) && d != bs[i].Data() ensures d in Live(FreeAt(bs, i)) {
      FreeHolds(bs, i, d, 0);
    }
    forall b | b in FreeAt(bs, i) && !b.free ensures b in bs && b.Data() != bs[i].Data() {
      FreedFrom(bs, i, b, lo, hi);
    }
  }

  lemma AllocLive(s: State, n: nat, lo: nat, hi: nat)
    requires Chain(s.blocks, lo, hi) && AllocCall(s, n).1 != 0
    ensures var (t, q) := AllocCall(s, n); Live(t.blocks) == Live(s.blocks) + {q} && q !in Live(s.blocks)
  {
    var i := FirstFit(s.blocks, Need(n));
    LiveTake(s.blocks, i, Need(n));
    AllocFresh(s, n, lo, hi);
  }

  /** A successful realloc trades the old address for the new one, keeps every other live
      block, and provides the requested bytes. */
  lemma ReallocLive(s: State, p: nat, n: nat, lo: nat, hi: nat)
    requires Good(s, lo, hi) && p != 0 && ReallocCall(s, p, n).1 != 0
    ensures var (t, q) := ReallocCall(s, p, n);
            && p in Live(s.blocks) && Live(t.blocks) == Live(s.blocks) - {p} + {q}
            && (q == p || q !in Live(s.blocks)) && Holds(t.blocks, q, n)
  {
    var i := LiveAt(s.blocks, p);
    var (t, q) := ReallocCall(s, p, n);
    assert s.blocks[i] in s.blocks;
    if Need(n) <= s.blocks[i].payload {
      assert Holds(t.blocks, q, n);
    } else if CanGrow(s.blocks, i, Need(n)) {
      LiveGrow(s.blocks, i, Need(n));
      GrowSelf(s.blocks, i, Need(n));
      HoldsLess(t.blocks, p, Need(n), n);
    } else {
      MoveLive(s, p, n, i, lo, hi);
    }
  }

  lemma HoldsLess(bs: seq<Block>, p: nat, big: nat, len: nat)
    requires Holds(bs, p, big) && len <= big
    ensures Holds(bs, p, len)
  {
  }

  lemma MoveLive(s: State, p: nat, n: nat, i: nat, lo: nat, hi: nat)
    requires Good(s, lo, hi) && i < |s.blocks| && !s.blocks[i].free && s.blocks[i].Data() == p && p != 0
    requires AllocCall(s, n).1 != 0
    ensures var (t, q) := AllocCall(s, n);
            var k := LiveAt(t.blocks, p);
            && k < |t.blocks| && Live(FreeAt(t.blocks, k)) == Live(s.blocks) - {p} + {q}
            && q !in Live(s.blocks) && Holds(FreeAt(t.blocks, k), q, n)
  {
    var (t, q) := AllocCall(s, n);
    MoveGood(s, p, n, i, lo, hi);
    AllocLive(s, n, lo, hi);
    AllocChain(s, n, lo, hi);
    LiveFree(t.blocks, LiveAt(t.blocks, p), lo, hi);
    HoldsLess(FreeAt(t.blocks, LiveAt(t.blocks, p)), q, Need(n), n);
  }

  lemma ReallocHolds(s: State, p: nat, n: nat, d: nat, len: nat)
    requires d != p && Holds(s.blocks, d, len)
    ensures Holds(ReallocCall(s, p, n).0.blocks, d, len)
  {
    var i := LiveAt(s.blocks, p);
    if p == 0 {
      AllocHolds(s, n, d, len);
    } else if Need(n) != 0 && i < |s.blocks| && Need(n) > s.blocks[i].payload {
      if CanGrow(s.blocks, i, Need(n)) {
        GrowHolds(s.blocks, i, Need(n), d, len);
      } else {
        AllocHolds(s, n, d, len);
        var t := AllocCall(s, n).0;
        if LiveAt(t.blocks, p) < |t.blocks| {
          FreeHolds(t.blocks, LiveAt(t.blocks, p), d, len);
        }
      }
    }
  }

  /** Two different live blocks occupy disjoint bytes. */
  lemma HoldsDisjoint(bs: seq<Block>, lo: nat, hi: nat, p: nat, m: nat, q: nat, n: nat)
    requires Chain(bs, lo, hi) && Holds(bs, p, m) && Holds(bs, q, n) && p != q
    ensures p + m <= q || q + n <= p
    ensures lo + HDR <= p && p + m <= hi
  {
    HoldsAt(bs, lo, hi, p, m);
    HoldsAt(bs, lo, hi, q, n);
    var i, j := LiveAt(bs, p), LiveAt(bs, q);
    ChainAt(bs, lo, hi, i);
    if i < j { ChainOrder(bs, lo, hi, i, j); } else { ChainOrder(bs, lo, hi, j, i); }
  }
}
