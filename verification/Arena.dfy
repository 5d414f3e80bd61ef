/** The arena allocator itself: a control block over a region of machine memory whose bytes
    any guest may have overwritten. Addresses are indices into `mem`; 0 is NULL. */
module Arena {
  import opened Bytes
  import opened ArenaBlocks
  import opened ArenaLayout
  import opened ArenaCalls

  datatype Status = Ok | InvalidParam | NoMemory

  /** Live payloads other than the one at `except` hold the same bytes in m and n. */
  ghost predicate KeepsLive(m: seq<byte>, n: seq<byte>, bs: seq<Block>, except: nat) {
    forall b :: b in bs && !b.free && b.Data() != except ==> Agree(m, n, b.Data(), b.End())
  }

  lemma TakeFacts(m: seq<byte>, bs: seq<Block>, i: nat, need: nat, lo: nat, hi: nat)
    requires Tiles(m, bs, lo, hi) && i < |bs| && bs[i].free
    requires ALIGN <= need <= bs[i].payload && need % ALIGN == 0
    ensures HeaderAt(m, bs[i]) && bs[i].End() <= hi && lo <= bs[i].addr
    ensures UsedSum(TakeAt(bs, i, need)) == UsedSum(bs) + HDR + Carve(bs[i], need)[0].payload <= hi - lo
  {
    TileAt(m, bs, lo, hi, i);
    TakeKeeps(bs, lo, hi, i, need);
    UsedBounded(TakeAt(bs, i, need), lo, hi);
    assert TakeAt(bs, i, need)[i] == Carve(bs[i], need)[0];
  }

  lemma TakeDone(m: seq<byte>, n: seq<byte>, bs: seq<Block>, i: nat, need: nat, lo: nat, hi: nat)
    requires Tiles(m, bs, lo, hi) && i < |bs| && bs[i].free
    requires ALIGN <= need <= bs[i].payload && need % ALIGN == 0
    requires AgreeOutside(m, n, bs[i].addr, bs[i].End())
    requires forall x :: x in Carve(bs[i], need) ==> HeaderAt(n, x)
    ensures Tiles(n, TakeAt(bs, i, need), lo, hi)
    ensures KeepsLive(m, n, bs, 0)
  {
    TakeKeeps(bs, lo, hi, i, need);
    SpliceTiles(m, n, bs, i, i + 1, Carve(bs[i], need), lo, hi);
    KeepsOutside(m, n, bs, i, i + 1, lo, hi, 0);
  }

  lemma FreeFacts(m: seq<byte>, bs: seq<Block>, i: nat, lo: nat, hi: nat)
    requires Tiles(m, bs, lo, hi) && i < |bs|
    ensures HeaderAt(m, bs[i]) && lo <= bs[i].addr && bs[i].End() <= hi && bs[i].payload >= ALIGN
    ensures if i + 1 < |bs| then bs[i].End() == bs[i + 1].addr < hi && HeaderAt(m, bs[i + 1]) && bs[i + 1].End() <= hi
            else bs[i].End() == hi
    ensures 0 < i ==> bs[i - 1].End() == bs[i].addr && HeaderAt(m, bs[i - 1]) && bs[i - 1].payload >= ALIGN
  {
    hide Word, HeaderAt, Chain;
    TileAt(m, bs, lo, hi, i);
    if 0 < i { TileAt(m, bs, lo, hi, i - 1); }
    if i + 1 < |bs| { TileAt(m, bs, lo, hi, i + 1); }
  }

  lemma FreeDone(m: seq<byte>, n: seq<byte>, bs: seq<Block>, i: nat, lo: nat, hi: nat)
    requires Tiles(m, bs, lo, hi) && i < |bs| && !bs[i].free && HeaderAt(n, Merged(bs, i))
    requires AgreeOutside(m, n, bs[MergeLo(bs, i)].addr, bs[MergeHi(bs, i) - 1].End())
    ensures Tiles(n, FreeAt(bs, i), lo, hi)
    ensures UsedSum(FreeAt(bs, i)) + HDR + bs[i].payload == UsedSum(bs)
  {
    hide Word, HeaderAt, Merged, UsedSum, Chain, MergeLo, MergeHi, AgreeOutside;
    FreeKeeps(bs, lo, hi, i);
    SpliceTiles(m, n, bs, MergeLo(bs, i), MergeHi(bs, i), [Merged(bs, i)], lo, hi);
  }

  lemma FreeKept(m: seq<byte>, n: seq<byte>, bs: seq<Block>, i: nat, lo: nat, hi: nat)
    requires Chain(bs, lo, hi) && i < |bs|
    requires AgreeOutside(m, n, bs[MergeLo(bs, i)].addr, bs[MergeHi(bs, i) - 1].End())
    ensures KeepsLive(m, n, bs, bs[i].Data()) && AgreeOutside(m, n, lo, hi)
  {
    hide Chain, KeepsLive;
    KeepsOutside(m, n, bs, MergeLo(bs, i), MergeHi(bs, i), lo, hi, bs[i].Data());
    ChainAt(bs, lo, hi, MergeLo(bs, i));
    ChainAt(bs, lo, hi, MergeHi(bs, i) - 1);
  }

  lemma GrowDone(m: seq<byte>, n: seq<byte>, bs: seq<Block>, i: nat, need: nat, lo: nat, hi: nat)
    requires Tiles(m, bs, lo, hi) && i < |bs| && !bs[i].free && CanGrow(bs, i, need)
    requires bs[i].payload < need && need % ALIGN == 0
    requires AgreeOutside(m, n, bs[i].addr, bs[i + 1].End())
    requires forall x :: x in Carve(Fused(bs, i), need) ==> HeaderAt(n, x)
    ensures Tiles(n, GrowAt(bs, i, need), lo, hi)
    ensures KeepsLive(m, n, bs, bs[i].Data())
    ensures UsedSum(GrowAt(bs, i, need)) + bs[i].payload == UsedSum(bs) + Carve(Fused(bs, i), need)[0].payload
  {
    hide Word, HeaderAt, UsedSum, Chain;
    GrowKeeps(bs, lo, hi, i, need);
    assert GrowAt(bs, i, need)[i] == Carve(Fused(bs, i), need)[0];
    SpliceTiles(m, n, bs, i, i + 2, Carve(Fused(bs, i), need), lo, hi);
    KeepsOutside(m, n, bs, i, i + 2, lo, hi, bs[i].Data());
  }

  /** Claiming a free block leaves every live block in the list. */
  lemma TakeLive(bs: seq<Block>, i: nat, need: nat, b: Block)
    requires i < |bs| && bs[i].free && need <= bs[i].payload && b in bs && !b.free
    ensures b in TakeAt(bs, i, need)
  {
    assert bs == bs[..i] + [bs[i]] + bs[i + 1..];
  }

  lemma AllocShape(s: State, n: nat)
    requires AllocCall(s, n).1 != 0
    ensures var f, need := FirstFit(s.blocks, Need(n)), Need(n);
            && f < |s.blocks| && s.blocks[f].free && ALIGN <= need <= s.blocks[f].payload && n <= need
            && AllocCall(s, n).0.blocks == TakeAt(s.blocks, f, need) && AllocCall(s, n).1 == s.blocks[f].Data()
  {
  }

  lemma PayloadFits(payload: nat, n: nat)
    requires payload % ALIGN == 0 && payload < Need(n)
    ensures payload <= n
  {
  }

  /** The two live blocks of a moving realloc, and where they lie. */
  lemma MovePair(bs: seq<Block>, i: nat, need: nat, j: nat, lo: nat, hi: nat)
    requires Chain(bs, lo, hi) && i < |bs| && bs[i].free && j < |bs| && !bs[j].free
    requires ALIGN <= need <= bs[i].payload && need % ALIGN == 0
    ensures var t, p := TakeAt(bs, i, need), bs[j].Data();
            && LiveAt(t, p) < |t| && t[LiveAt(t, p)] == bs[j]
            && i < |t| && t[i].Data() == bs[i].Data() && t[i].payload >= need && !t[i].free && i != LiveAt(t, p)
            && t[i].End() <= hi
    ensures bs[j].End() <= bs[i].addr || bs[i].End() <= bs[j].addr
    ensures bs[j].End() <= hi && bs[i].End() <= hi && lo <= bs[i].addr
  {
    hide Chain;
    var t := TakeAt(bs, i, need);
    TakeKeeps(bs, lo, hi, i, need);
    TakeLive(bs, i, need, bs[j]);
    var k :| 0 <= k < |t| && t[k] == bs[j];
    LiveUnique(t, lo, hi, k);
    assert t[i] == Carve(bs[i], need)[0];
    ChainAt(bs, lo, hi, i);
    ChainAt(t, lo, hi, i);
    ChainAt(bs, lo, hi, j);
    if i < j { ChainOrder(bs, lo, hi, i, j); } else { ChainOrder(bs, lo, hi, j, i); }
  }

  /** Filling a freshly taken block (n to o) keeps the encoding and the older live bytes. */
  lemma FillTaken(m: seq<byte>, n: seq<byte>, o: seq<byte>, bs: seq<Block>, i: nat, need: nat, lo: nat, hi: nat)
    requires Chain(bs, lo, hi) && i < |bs| && bs[i].free
    requires ALIGN <= need <= bs[i].payload && need % ALIGN == 0
    requires |m| == |n| && KeepsLive(m, n, bs, 0) && Tiles(n, TakeAt(bs, i, need), lo, hi)
    requires AgreeOutside(n, o, bs[i].Data(), bs[i].Data() + need)
    ensures Tiles(o, TakeAt(bs, i, need), lo, hi)
    ensures KeepsLive(m, o, bs, 0) && AgreeOutside(n, o, lo, hi)
  {
    hide Word, HeaderAt, KeepsLive;
    var t := TakeAt(bs, i, need);
    assert t[i] == Carve(bs[i], need)[0];
    ChainAt(bs, lo, hi, i);
    PayloadWrite(n, o, t, i, lo, hi);
    KeepsOutside(n, o, bs, i, i + 1, lo, hi, 0);
    KeepsTrans(m, n, o, bs, 0);
  }

  /** Bytes kept by allocate and copy (m to o) and then free (o to r), seen from the old list. */
  lemma MoveKeeps(m: seq<byte>, o: seq<byte>, r: seq<byte>, bs: seq<Block>, i: nat, need: nat, p: nat)
    requires i < |bs| && bs[i].free && need <= bs[i].payload
    requires |m| == |o| == |r| && KeepsLive(m, o, bs, 0) && KeepsLive(o, r, TakeAt(bs, i, need), p)
    requires forall b :: b in bs ==> b.Data() != 0
    ensures KeepsLive(m, r, bs, p)
  {
    forall b | b in bs && !b.free && b.Data() != p ensures Agree(m, r, b.Data(), b.End()) {
      TakeLive(bs, i, need, b);
    }
  }

  /** The bytes a live block keeps, as slices. */
  lemma KeptSlice(m: seq<byte>, n: seq<byte>, bs: seq<Block>, j: nat, except: nat, len: nat)
    requires KeepsLive(m, n, bs, except) && |m| == |n| && j < |bs| && !bs[j].free && bs[j].Data() != except
    requires len <= bs[j].payload && bs[j].End() <= |m|
    ensures m[bs[j].Data()..bs[j].Data() + len] == n[bs[j].Data()..bs[j].Data() + len]
  {
    assert bs[j] in bs;
    assert Agree(m, n, bs[j].Data(), bs[j].End());
  }

  /** After a successful allocation the old block is still live, so the move can finish. */
  lemma MoveReady(s: State, p: nat, n: nat, i: nat, lo: nat, hi: nat)
    requires Chain(s.blocks, lo, hi) && i == LiveAt(s.blocks, p) < |s.blocks|
    requires !CanGrow(s.blocks, i, Need(n)) && AllocCall(s, n).1 != 0
    ensures var (t, q) := AllocCall(s, n);
            && LiveAt(t.blocks, p) < |t.blocks|
            && Enlarge(s, p, n, i) ==
               (State(FreeAt(t.blocks, LiveAt(t.blocks, p)), t.high, MoveRecord(t.records, p, q, n)), q)
  {
    hide TakeAt, FreeAt, LiveAt, Chain, AllocCall;
    AllocShape(s, n);
    MovePair(s.blocks, FirstFit(s.blocks, Need(n)), Need(n), i, lo, hi);
  }

  /** What a move (allocate and copy, m to o; free, o to r) leaves in memory. */
  lemma MoveDone(m: seq<byte>, o: seq<byte>, r: seq<byte>, s: State, p: nat, n: nat, i: nat, lo: nat, hi: nat)
    requires Chain(s.blocks, lo, hi) && hi <= |m| == |o| == |r| && i == LiveAt(s.blocks, p) < |s.blocks|
    requires s.blocks[i].payload < Need(n) && AllocCall(s, n).1 != 0
    requires KeepsLive(m, o, s.blocks, 0) && KeepsLive(o, r, AllocCall(s, n).0.blocks, p)
    ensures var q, k := AllocCall(s, n).1, s.blocks[i].payload;
            KeepsLive(m, r, s.blocks, p) && q + k <= |r| && r[q..q + k] == o[q..q + k]
  {
    hide KeepsLive, TakeAt, LiveAt, Chain, AllocCall;
    var f, need := FirstFit(s.blocks, Need(n)), Need(n);
    AllocShape(s, n);
    MovePair(s.blocks, f, need, i, lo, hi);
    MoveKeeps(m, o, r, s.blocks, f, need, p);
    KeptSlice(o, r, TakeAt(s.blocks, f, need), f, p, s.blocks[i].payload);
  }

  lemma StartWalk(o: Option<seq<Block>>)
    ensures o == Prefixed([], o)
  {
    if o.Some? {
      assert [] + o.value == o.value;
    }
  }

  /** The payload that lived at p is found at q. */
  ghost predicate KeepsBlock(m: seq<byte>, n: seq<byte>, bs: seq<Block>, p: nat, q: nat) {
    var i := LiveAt(bs, p);
    i < |bs| && p + bs[i].payload <= |m| && q + bs[i].payload <= |n|
    && n[q..q + bs[i].payload] == m[p..p + bs[i].payload]
  }

  lemma BlockKept(m: seq<byte>, n: seq<byte>, bs: seq<Block>, p: nat, q: nat)
    requires LiveAt(bs, p) < |bs|
    requires p + bs[LiveAt(bs, p)].payload <= |m| && q + bs[LiveAt(bs, p)].payload <= |n|
    requires n[q..q + bs[LiveAt(bs, p)].payload] == m[p..p + bs[LiveAt(bs, p)].payload]
    ensures KeepsBlock(m, n, bs, p, q)
  {
  }

  lemma KeepsSame(m: seq<byte>, bs: seq<Block>, except: nat)
    ensures KeepsLive(m, m, bs, except)
  {
  }

  lemma KeepsTrans(m: seq<byte>, n: seq<byte>, o: seq<byte>, bs: seq<Block>, except: nat)
    requires KeepsLive(m, n, bs, except) && KeepsLive(n, o, bs, except) && |m| == |n| == |o|
    ensures KeepsLive(m, o, bs, except)
  {
  }

  /** Stores confined to a run of blocks keep every live payload outside the run. */
  lemma KeepsOutside(m: seq<byte>, n: seq<byte>, bs: seq<Block>, l: nat, h: nat, lo: nat, hi: nat, except: nat)
    requires Chain(bs, lo, hi) && l < h <= |bs|
    requires AgreeOutside(m, n, bs[l].addr, bs[h - 1].End())
    requires forall j :: l <= j < h ==> bs[j].free || bs[j].Data() == except
    ensures KeepsLive(m, n, bs, except)
  {
    forall b | b in bs && !b.free && b.Data() != except ensures Agree(m, n, b.Data(), b.End()) {
      var j :| 0 <= j < |bs| && bs[j] == b;
      if j < l {
        ChainOrder(bs, lo, hi, j, l);
      } else {
        ChainOrder(bs, lo, hi, h - 1, j);
      }
    }
  }

  class Arena {
    const mem: array<byte>
    var base: nat
    var size: nat
    var used: nat
    var highWater: nat
    var first: nat
    var records: seq<Record>

    /** The privileged control block: the managed region lies inside memory. */
    ghost predicate Control()
      reads this
    {
      mem.Length <= TWO32 && base + size <= mem.Length
    }

    /** The checks of arena_layout_valid on the control block. */
    predicate Placed()
      reads this
    {
      && base != 0 && first == base
      && size >= HDR + ALIGN && size % ALIGN == 0
      && base % ALIGN == 0 && base <= 0xFFFF_FFFF - size
    }

    /** The bytes of the region encode a tiling whose live footprint is `used`. */
    ghost predicate LayoutOk()
      requires Control()
      reads this, mem
    {
      && Placed()
      && Parse(mem[..], base, base + size).Some?
      && UsedSum(Parse(mem[..], base, base + size).value) == used
    }

    ghost function Blocks(): seq<Block>
      requires Control() && LayoutOk()
      reads this, mem
    {
      Parse(mem[..], base, base + size).value
    }

    ghost function Abs(): State
      requires Control() && LayoutOk()
      reads this, mem
    {
      State(Blocks(), highWater, records)
    }

    /** Every header word the allocator reads lies inside the managed region. */
    function HeaderWord(a: nat): (w: uint32)
      requires base <= a && a + 4 <= base + size <= mem.Length
      reads this, mem
      ensures w == Word(mem[..], a)
    {
      LoadWord(mem, a)
    }

    /** The verdict on the layout, and the block list every call works from, depend on nothing but
        the control block and the bytes of the region. */
    twostate lemma VerdictLocal()
      requires old(Control()) && unchanged(this) && Agree(old(mem[..]), mem[..], base, base + size)
      ensures LayoutOk() == old(LayoutOk())
      ensures LayoutOk() ==> Blocks() == old(Blocks())
    {
      ParseLocal(old(mem[..]), mem[..], base, base + size);
    }

    constructor (memory: array<byte>, slots: nat)
      requires memory.Length <= TWO32
      ensures mem == memory && Control() && !LayoutOk() && records == EmptyRecords(slots)
    {
      mem := memory;
      base, size, used, highWater, first := 0, 0, 0, 0, 0;
      records := EmptyRecords(slots);
    }

    /** arena_layout_valid: decides LayoutOk on arbitrary bytes. */
    method LayoutValid() returns (ok: bool)
      requires Control()
      ensures ok == LayoutOk()
    {
      hide Word, HeaderWord;
      if !Placed() {
        return false;
      }
      var end := base + size;
      var cur := base;
      var sum := 0;
      ghost var pre: seq<Block> := [];
      StartWalk(Parse(mem[..], base, end));
      while cur < end
        invariant base <= cur <= end
        invariant Chain(pre, base, cur) && sum == UsedSum(pre)
        invariant Parse(mem[..], base, end) == Prefixed(pre, Parse(mem[..], cur, end))
        decreases end - cur
      {
        var remain := end - cur;
        if remain < HDR {
          return false;
        }
        var payload := HeaderWord(cur);
        var isFree := HeaderWord(cur + 4);
        if HeaderWord(cur + 8) != MAGIC || isFree > 1 || payload < ALIGN || payload % ALIGN != 0 ||
           payload > remain - HDR {
          return false;
        }
        WalkStep(mem[..], pre, base, cur, end);
        var footprint := HDR + payload;
        if isFree == 0 {
          if sum > size - footprint {
            return false;
          }
          sum := sum + footprint;
        }
        pre := pre + [BlockAt(mem[..], cur)];
        cur := cur + footprint;
      }
      assert pre + [] == pre;
      ok := sum == used;
    }

    ghost predicate Tiled()
      requires Control() && LayoutOk()
      reads this, mem
    {
      Tiles(mem[..], Blocks(), base, base + size) && |Blocks()| > 0 && Blocks()[0].addr == base
    }

    lemma LayoutTiles()
      requires Control() && LayoutOk()
      ensures Tiled() && Chain(Blocks(), base, base + size)
    {
      ParseTiles(mem[..], base, base + size);
    }

    /** The first-fit walk of lxp_arena_alloc; 0 when nothing fits. */
    method FindFit(need: nat) returns (cur: nat, ghost i: nat)
      requires Control() && LayoutOk()
      ensures i == FirstFit(Blocks(), need)
      ensures cur == if FirstFit(Blocks(), need) < |Blocks()| then Blocks()[FirstFit(Blocks(), need)].addr else 0
      ensures i < |Blocks()| ==> cur != 0
    {
      hide Word, HeaderWord, UsedSum;
      LayoutTiles();
      cur := base;
      i := 0;
      while cur < base + size
        invariant i <= |Blocks()|
        invariant cur == (if i < |Blocks()| then Blocks()[i].addr else base + size)
        invariant i < |Blocks()| ==> cur < base + size
        invariant forall j :: 0 <= j < i ==> !(Blocks()[j].free && Blocks()[j].payload >= need)
        decreases |Blocks()| - i
      {
        TileAt(mem[..], Blocks(), base, base + size, i);
        var payload := HeaderWord(cur);
        if HeaderWord(cur + 4) != 0 && payload >= need {
          return;
        }
        cur := cur + HDR + payload;
        i := i + 1;
      }
      cur := 0;
    }

    /** arena_find_payload: exact payload starts only, with the block before it. */
    method FindPayload(p: nat) returns (cur: nat, prev: nat, ghost i: nat)
      requires Control() && LayoutOk()
      ensures i == FindData(Blocks(), p)
      ensures cur == if FindData(Blocks(), p) < |Blocks()| then Blocks()[FindData(Blocks(), p)].addr else 0
      ensures i < |Blocks()| ==> cur != 0
      ensures 0 < i < |Blocks()| ==> prev == Blocks()[i - 1].addr && prev != 0
      ensures i == 0 ==> prev == 0
    {
      hide Word, HeaderWord, UsedSum;
      LayoutTiles();
      cur, prev, i := base, 0, 0;
      while cur < base + size
        invariant i <= |Blocks()|
        invariant cur == (if i < |Blocks()| then Blocks()[i].addr else base + size)
        invariant i < |Blocks()| ==> cur < base + size
        invariant if i == 0 then prev == 0 else prev == Blocks()[i - 1].addr && prev != 0
        invariant forall j :: 0 <= j < i ==> Blocks()[j].Data() != p
        decreases |Blocks()| - i
      {
        TileAt(mem[..], Blocks(), base, base + size, i);
        if cur + HDR == p {
          return;
        }
        prev := cur;
        cur := cur + HDR + HeaderWord(cur);
        i := i + 1;
      }
      cur := 0;
    }

    lemma Adopt(bs: seq<Block>)
      requires Control() && Placed()
      requires Tiles(mem[..], bs, base, base + size) && used == UsedSum(bs)
      ensures LayoutOk() && Blocks() == bs
    {
      TilesParse(mem[..], bs, base, base + size);
    }

    /** lxp_arena_init over the caller's buffer [buf, buf + len). */
    method Init(buf: nat, len: nat) returns (rc: Status)
      requires Control() && buf + len <= mem.Length < TWO32
      modifies this, mem
      ensures Control() && |records| == old(|records|)
      ensures AgreeOutside(old(mem[..]), mem[..], buf, buf + len)
      ensures rc.Ok? <==> buf != 0 && exists a :: buf <= a < buf + 16 && a % 16 == 0 && a + 32 <= buf + len
      ensures rc.Ok? ==> buf <= base < buf + 16 && base % 16 == 0 && buf + len - 16 < base + size <= buf + len
      ensures rc.Ok? ==> LayoutOk() && Abs() == Fresh(base, base + size, |records|) && used == 0
      ensures !rc.Ok? ==> mem[..] == old(mem[..]) && unchanged(this)
    {
      if buf == 0 || buf > 0xFFFF_FFFF - (ALIGN - 1) {
        return InvalidParam;
      }
      var start := (buf + (ALIGN - 1)) / ALIGN * ALIGN;
      var adjust := start - buf;
      if len <= adjust {
        return InvalidParam;
      }
      var usable := (len - adjust) / ALIGN * ALIGN;
      if usable < HDR + ALIGN {
        return NoMemory;
      }
      base, size, highWater := start, usable, 0;
      records := EmptyRecords(|records|);
      LayFirst();
      rc := Ok;
    }

    /** arena_lay_first: one free block over the whole region. */
    method LayFirst()
      requires Control() && base != 0 && base % ALIGN == 0 && size % ALIGN == 0
      requires size >= HDR + ALIGN && base + size < TWO32
      modifies this`first, this`used, mem
      ensures Control() && LayoutOk() && used == 0
      ensures Blocks() == [Block(base, size - HDR, true)]
      ensures AgreeOutside(old(mem[..]), mem[..], base, base + HDR)
    {
      hide Word, HeaderAt;
      var b := Block(base, size - HDR, true);
      StoreHeader(mem, b);
      first, used := base, 0;
      ChainOne(b);
      UsedPair(b, b);
      Adopt([b]);
    }

    /** lxp_arena_reset */
    method Reset()
      requires Control() && (base != 0 ==> Placed())
      modifies this`first, this`used, this`records, mem
      ensures Control() && AgreeOutside(old(mem[..]), mem[..], base, base + size)
      ensures base == 0 ==> mem[..] == old(mem[..]) && unchanged(this)
      ensures base != 0 ==> LayoutOk() && Abs() == Fresh(base, base + size, old(|records|)).(high := highWater)
    {
      if base == 0 {
        return;
      }
      records := EmptyRecords(|records|);
      LayFirst();
    }

    /** Split and claim the free block at cur. */
    method Take(cur: nat, need: nat, ghost i: nat)
      requires Control() && LayoutOk() && i < |Blocks()| && Blocks()[i].addr == cur && Blocks()[i].free
      requires ALIGN <= need <= Blocks()[i].payload && need % ALIGN == 0
      modifies this`used, this`highWater, mem
      ensures Control() && AgreeOutside(old(mem[..]), mem[..], base, base + size)
      ensures LayoutOk() && Blocks() == TakeAt(old(Blocks()), i, need)
      ensures highWater == Max(old(highWater), used)
      ensures KeepsLive(old(mem[..]), mem[..], old(Blocks()), 0)
    {
      hide Word, KeepsLive, TakeAt;
      ghost var m, bs := mem[..], Blocks();
      LayoutTiles();
      TakeFacts(m, bs, i, need, base, base + size);
      var b := Block(cur, HeaderWord(cur), true);
      assert b == bs[i];
      var footprint := HDR + Carve(b, need)[0].payload;
      TakeStores(mem, b, need);
      TakeDone(m, mem[..], bs, i, need, base, base + size);
      used := used + footprint;
      if used > highWater {
        highWater := used;
      }
      Adopt(TakeAt(bs, i, need));
    }

    /** lxp_arena_alloc: 0 on failure. */
    method Alloc(n: uint32) returns (p: nat)
      requires Control()
      modifies this`used, this`highWater, mem
      ensures Control() && AgreeOutside(old(mem[..]), mem[..], base, base + size)
      ensures p == 0 ==> mem[..] == old(mem[..]) && used == old(used) && highWater == old(highWater)
      ensures !old(LayoutOk()) ==> p == 0
      ensures old(LayoutOk()) ==> LayoutOk() && (Abs(), p) == AllocCall(old(Abs()), n)
      ensures old(LayoutOk()) ==> KeepsLive(old(mem[..]), mem[..], old(Blocks()), 0)
    {
      hide TakeAt, KeepsLive, Word, HeaderWord, UsedSum;
      p := 0;
      var need := Need(n);
      var ok := LayoutValid();
      KeepsSame(mem[..], if ok then Blocks() else [], 0);
      if first != 0 && ok && need != 0 {
        var cur, i := FindFit(need);
        if cur != 0 {
          Take(cur, need, i);
          p := cur + HDR;
        }
      }
    }

    /** lxp_arena_calloc */
    method Calloc(n: uint32) returns (p: nat)
      requires Control()
      modifies this`used, this`highWater, mem
      ensures Control() && AgreeOutside(old(mem[..]), mem[..], base, base + size)
      ensures p == 0 ==> mem[..] == old(mem[..]) && used == old(used) && highWater == old(highWater)
      ensures !old(LayoutOk()) ==> p == 0
      ensures old(LayoutOk()) ==> LayoutOk() && (Abs(), p) == AllocCall(old(Abs()), n)
      ensures old(LayoutOk()) ==> KeepsLive(old(mem[..]), mem[..], old(Blocks()), 0)
      ensures p != 0 ==> p + Need(n) <= mem.Length && forall k :: p <= k < p + Need(n) ==> mem[k] == 0
    {
      hide TakeAt, KeepsLive, Word, Parse, UsedSum, Chain, FirstFit, Tiles;
      var need := Need(n);
      p := 0;
      ghost var m0 := mem[..];
      if need != 0 {
        hide AllocCall;
        p := Alloc(n);
        if p != 0 {
          ghost var n1, bs, i := mem[..], old(Blocks()), FirstFit(old(Blocks()), need);
          AllocShape(old(Abs()), n);
          LayoutTiles();
          ParseTiles(m0, base, base + size);
          ChainAt(bs, base, base + size, i);
          Zero(mem, p, need);
          FillTaken(m0, n1, mem[..], bs, i, need, base, base + size);
          Adopt(TakeAt(bs, i, need));
        }
      } else {
        KeepsSame(m0, if LayoutOk() then Blocks() else [], 0);
      }
    }

    /** Release and coalesce the live block at cur. */
    method Release(cur: nat, prev: nat, ghost i: nat)
      requires Control() && LayoutOk() && i < |Blocks()| && Blocks()[i].addr == cur && !Blocks()[i].free
      requires if i == 0 then prev == 0 else prev == Blocks()[i - 1].addr && prev != 0
      modifies this`used, mem
      ensures Control() && AgreeOutside(old(mem[..]), mem[..], base, base + size)
      ensures LayoutOk() && Blocks() == FreeAt(old(Blocks()), i)
      ensures KeepsLive(old(mem[..]), mem[..], old(Blocks()), old(Blocks())[i].Data())
    {
      hide Word, HeaderWord, KeepsLive, UsedSum, FreeAt, Parse, Chain, Tiles;
      ghost var m, bs := mem[..], Blocks();
      LayoutTiles();
      FreeFacts(m, bs, i, base, base + size);
      var b := Block(cur, HeaderWord(cur), false);
      var next, before := None, None;
      if b.End() < base + size && HeaderWord(b.End() + 4) != 0 {
        next := Some(Block(b.End(), HeaderWord(b.End()), true));
      }
      if i > 0 { ChainAt(bs, base, base + size, i - 1); }
      if prev != 0 && HeaderWord(prev + 4) != 0 {
        before := Some(Block(prev, HeaderWord(prev), true));
      }
      FreeStores(mem, before, b, next);
      FreeDone(m, mem[..], bs, i, base, base + size);
      FreeKept(m, mem[..], bs, i, base, base + size);
      used := used - (HDR + b.payload);
      Adopt(FreeAt(bs, i));
    }

    /** arena_free_block: false for NULL, foreign, interior and already free pointers. */
    method FreeBlock(p: nat) returns (ok: bool)
      requires Control()
      modifies this`used, mem
      ensures Control() && AgreeOutside(old(mem[..]), mem[..], base, base + size)
      ensures !ok ==> mem[..] == old(mem[..]) && used == old(used)
      ensures !old(LayoutOk()) ==> !ok
      ensures old(LayoutOk()) ==> LayoutOk() && ok == (p != 0 && LiveAt(old(Blocks()), p) < |old(Blocks())|)
      ensures old(LayoutOk()) && ok ==> Blocks() == FreeAt(old(Blocks()), LiveAt(old(Blocks()), p))
      ensures old(LayoutOk()) ==> KeepsLive(old(mem[..]), mem[..], old(Blocks()), p)
    {
      hide Word, HeaderWord, KeepsLive, UsedSum, FreeAt;
      ok := false;
      var valid := LayoutValid();
      KeepsSame(mem[..], if valid then Blocks() else [], p);
      if p != 0 && valid {
        var cur, prev, i := FindPayload(p);
        if cur != 0 {
          LayoutTiles();
          TileAt(mem[..], Blocks(), base, base + size, i);
          if HeaderWord(cur + 4) == 0 {
            Release(cur, prev, i);
            ok := true;
          }
        }
      }
    }

    /** lxp_arena_free: also drops any record of the released address. */
    method Free(p: nat)
      requires Control()
      modifies this`used, this`records, mem
      ensures Control() && AgreeOutside(old(mem[..]), mem[..], base, base + size)
      ensures !old(LayoutOk()) ==> mem[..] == old(mem[..]) && unchanged(this)
      ensures old(LayoutOk()) ==> LayoutOk() && Abs() == FreeCall(old(Abs()), p).0
      ensures old(LayoutOk()) && !FreeCall(old(Abs()), p).1 ==> mem[..] == old(mem[..]) && unchanged(this)
      ensures old(LayoutOk()) ==> KeepsLive(old(mem[..]), mem[..], old(Blocks()), p)
    {
      hide Word, KeepsLive, UsedSum, FreeAt;
      var ok := FreeBlock(p);
      if ok {
        DropRecords(p);
      }
    }

    method DropRecords(p: nat)
      modifies this`records
      ensures records == ClearRecords(old(records), p)
    {
      ghost var rs := records;
      var i := 0;
      while i < |records|
        invariant 0 <= i <= |records| == |rs|
        invariant forall k :: 0 <= k < |rs| ==>
                                records[k] == (if k < i && rs[k].addr == p then Record(0, 0) else rs[k])
      {
        if records[i].addr == p {
          records := records[i := Record(0, 0)];
        }
        i := i + 1;
      }
    }

    method SetLengths(p: nat, n: nat)
      modifies this`records
      ensures records == Relength(old(records), p, n)
    {
      ghost var rs := records;
      var i := 0;
      while i < |records|
        invariant 0 <= i <= |records| == |rs|
        invariant forall k :: 0 <= k < |rs| ==>
                                records[k] == (if k < i && rs[k].addr == p then Record(p, n) else rs[k])
      {
        if records[i].addr == p {
          records := records[i := Record(p, n)];
        }
        i := i + 1;
      }
    }

    /** First record slot naming p, or the table length. */
    method SlotOf(p: nat) returns (j: nat)
      ensures j == FindAddr(records, p)
    {
      j := 0;
      while j < |records| && records[j].addr != p
        invariant 0 <= j <= |records|
        invariant forall k :: 0 <= k < j ==> records[k].addr != p
      {
        j := j + 1;
      }
    }

    /** First record slot holding exactly this address and length, or the table length. */
    method PairOf(p: nat, n: nat) returns (j: nat)
      ensures j == FindRecord(records, Record(p, n))
    {
      j := 0;
      while j < |records| && records[j] != Record(p, n)
        invariant 0 <= j <= |records|
        invariant forall k :: 0 <= k < j ==> records[k] != Record(p, n)
      {
        j := j + 1;
      }
    }

    /** lxp_arena_alloc_tracked */
    method AllocTracked(n: uint32) returns (p: nat)
      requires Control()
      modifies this`used, this`highWater, this`records, mem
      ensures Control() && AgreeOutside(old(mem[..]), mem[..], base, base + size)
      ensures p == 0 ==> mem[..] == old(mem[..]) && unchanged(this)
      ensures !old(LayoutOk()) ==> p == 0
      ensures old(LayoutOk()) ==> LayoutOk() && (Abs(), p) == AllocTrackedCall(old(Abs()), n)
      ensures old(LayoutOk()) ==> KeepsLive(old(mem[..]), mem[..], old(Blocks()), 0)
    {
      hide Word, KeepsLive, UsedSum, AllocCall, Parse;
      p := 0;
      KeepsSame(mem[..], if LayoutOk() then Blocks() else [], 0);
      var slot := SlotOf(0);
      if slot < |records| {
        p := Alloc(n);
        if p != 0 {
          records := records[slot := Record(p, n)];
        }
      }
    }

    /** lxp_arena_free_tracked: only an exact live address and length pair is released. */
    method FreeTracked(p: nat, n: nat) returns (ok: bool)
      requires Control()
      modifies this`used, this`records, mem
      ensures Control() && AgreeOutside(old(mem[..]), mem[..], base, base + size)
      ensures !ok ==> mem[..] == old(mem[..]) && unchanged(this)
      ensures !old(LayoutOk()) ==> !ok
      ensures old(LayoutOk()) ==> LayoutOk() && (Abs(), ok) == FreeTrackedCall(old(Abs()), p, n)
      ensures old(LayoutOk()) ==> KeepsLive(old(mem[..]), mem[..], old(Blocks()), p)
    {
      hide Word, KeepsLive, UsedSum, FreeAt, Parse, LiveAt, FindRecord;
      ok := false;
      KeepsSame(mem[..], if LayoutOk() then Blocks() else [], p);
      if p != 0 {
        var j := PairOf(p, n);
        if j < |records| {
          ok := FreeBlock(p);
          if ok {
            records := records[j := Record(0, 0)];
          }
        }
      }
    }

    /** Grow the live block at cur into its free successor. */
    method Grow(cur: nat, need: nat, ghost i: nat)
      requires Control() && LayoutOk() && i < |Blocks()| && Blocks()[i].addr == cur && !Blocks()[i].free
      requires need % ALIGN == 0 && Blocks()[i].payload < need && CanGrow(Blocks(), i, need)
      modifies this`used, this`highWater, mem
      ensures Control() && AgreeOutside(old(mem[..]), mem[..], base, base + size)
      ensures LayoutOk() && Blocks() == GrowAt(old(Blocks()), i, need)
      ensures highWater == Max(old(highWater), used)
      ensures KeepsLive(old(mem[..]), mem[..], old(Blocks()), old(Blocks())[i].Data())
      ensures Agree(old(mem[..]), mem[..], old(Blocks())[i].Data(), old(Blocks())[i].End())
    {
      hide Word, HeaderWord, KeepsLive, UsedSum, GrowAt, Parse;
      ghost var m, bs := mem[..], Blocks();
      LayoutTiles();
      FreeFacts(m, bs, i, base, base + size);
      var b := Block(cur, HeaderWord(cur), false);
      var c := Block(b.End(), HeaderWord(b.End()), true);
      assert b == bs[i] && c == bs[i + 1];
      GrowStores(mem, b, c, need);
      GrowDone(m, mem[..], bs, i, need, base, base + size);
      assert Carve(Fused(bs, i), need)[0] in Carve(Fused(bs, i), need);
      used := used + (HeaderWord(cur) - b.payload);
      if used > highWater {
        highWater := used;
      }
      Adopt(GrowAt(bs, i, need));
    }

    /** The memcpy of a moving realloc: from live block i to the block just taken from free block f. */
    method CopyTaken(p: nat, q: nat, count: nat, ghost m: seq<byte>, ghost bs: seq<Block>, ghost i: nat,
                     ghost f: nat, ghost need: nat)
      requires Control() && LayoutOk() && Chain(bs, base, base + size)
      requires i < |bs| && !bs[i].free && p == bs[i].Data() && count <= bs[i].payload && p != 0
      requires f < |bs| && bs[f].free && ALIGN <= need <= bs[f].payload && need % ALIGN == 0
      requires q == bs[f].Data() && count <= need
      requires Blocks() == TakeAt(bs, f, need) && |m| == mem.Length && KeepsLive(m, mem[..], bs, 0)
      modifies mem
      ensures Control() && LayoutOk() && Blocks() == old(Blocks())
      ensures AgreeOutside(old(mem[..]), mem[..], base, base + size)
      ensures KeepsLive(m, mem[..], bs, 0)
      ensures q + count <= mem.Length && p + count <= |m| && mem[q..q + count] == m[p..p + count]
    {
      hide Word, KeepsLive, UsedSum, TakeAt, Parse, Chain, LiveAt;
      LayoutTiles();
      ghost var n1 := mem[..];
      MovePair(bs, f, need, i, base, base + size);
      KeptSlice(m, n1, bs, i, 0, count);
      Copy(mem, q, p, count);
      FillTaken(m, n1, mem[..], bs, f, need, base, base + size);
      Adopt(TakeAt(bs, f, need));
    }

    /** The allocate and copy half of a moving realloc for the live block i at p. */
    method Replace(p: nat, payload: nat, n: uint32, ghost i: nat) returns (q: nat)
      requires Control() && LayoutOk() && p != 0 && i == LiveAt(Blocks(), p) < |Blocks()|
      requires payload == Blocks()[i].payload < Need(n) && p + payload <= mem.Length
      modifies this`used, this`highWater, mem
      ensures Control() && AgreeOutside(old(mem[..]), mem[..], base, base + size)
      ensures q == 0 ==> mem[..] == old(mem[..]) && unchanged(this)
      ensures LayoutOk() && (Abs(), q) == AllocCall(old(Abs()), n)
      ensures KeepsLive(old(mem[..]), mem[..], old(Blocks()), 0)
      ensures q != 0 ==> q + payload <= mem.Length && mem[q..q + payload] == old(mem[p..p + payload])
    {
      hide Word, KeepsLive, UsedSum, TakeAt, Parse, Need, AllocCall, Chain, LiveAt, FirstFit, Tiles, Coalesced, Max;
      ghost var m, bs, need := mem[..], Blocks(), Need(n);
      LayoutTiles();
      q := Alloc(n);
      if q != 0 {
        AllocShape(old(Abs()), n);
        ChainAt(bs, base, base + size, i);
        PayloadFits(payload, n);
        CopyTaken(p, q, if payload < n then payload else n, m, bs, i, FirstFit(bs, need), need);
      }
    }

    /** The allocate, copy and free path of lxp_arena_realloc. */
    method Move(p: nat, payload: nat, n: uint32, ghost i: nat) returns (q: nat)
      requires Control() && LayoutOk() && p != 0 && i == LiveAt(Blocks(), p) < |Blocks()|
      requires payload == Blocks()[i].payload < Need(n) && p + payload <= mem.Length
      requires !CanGrow(Blocks(), i, Need(n))
      modifies this`used, this`highWater, this`records, mem
      ensures Control() && AgreeOutside(old(mem[..]), mem[..], base, base + size)
      ensures q == 0 ==> mem[..] == old(mem[..]) && unchanged(this)
      ensures LayoutOk() && (Abs(), q) == Enlarge(old(Abs()), p, n, i)
      ensures KeepsLive(old(mem[..]), mem[..], old(Blocks()), p)
      ensures q != 0 ==> q + payload <= mem.Length && mem[q..q + payload] == old(mem[p..p + payload])
    {
      hide Word, KeepsLive, UsedSum, FreeAt, Parse, Need, AllocCall, Chain, LiveAt;
      ghost var m, was := mem[..], Abs();
      LayoutTiles();
      KeepsSame(m, was.blocks, p);
      q := Replace(p, payload, n, i);
      if q != 0 {
        hide Enlarge;
        ghost var o := mem[..];
        MoveReady(was, p, n, i, base, base + size);
        var slot := SlotOf(p);
        var ok := FreeBlock(p);
        if !ok {
          assert false; // the old block is still live, so the rollback is never taken
        }
        MoveDone(m, o, mem[..], was, p, n, i, base, base + size);
        if slot < |records| {
          records := records[slot := Record(q, n)];
        }
      }
    }

    /** Grow or move the live block i at p, which is too small for n bytes. */
    method Widen(p: nat, cur: nat, payload: nat, n: uint32, ghost i: nat) returns (q: nat)
      requires Control() && LayoutOk() && p != 0 && i == LiveAt(Blocks(), p) < |Blocks()|
      requires cur == Blocks()[i].addr && payload == Blocks()[i].payload < Need(n) && p + payload <= mem.Length
      modifies this`used, this`highWater, this`records, mem
      ensures Control() && AgreeOutside(old(mem[..]), mem[..], base, base + size)
      ensures q == 0 ==> mem[..] == old(mem[..]) && unchanged(this)
      ensures LayoutOk() && (Abs(), q) == Enlarge(old(Abs()), p, n, i)
      ensures KeepsLive(old(mem[..]), mem[..], old(Blocks()), p)
      ensures q != 0 ==> q + payload <= mem.Length && mem[q..q + payload] == old(mem[p..p + payload])
    {
      hide Word, HeaderWord, KeepsLive, UsedSum, GrowAt, Parse, Need, AllocCall, Chain;
      LayoutTiles();
      FreeFacts(mem[..], Blocks(), i, base, base + size);
      var next := cur + HDR + payload;
      if next < base + size && HeaderWord(next + 4) != 0 && payload + HDR + HeaderWord(next) >= Need(n) {
        Grow(cur, Need(n), i);
        SetLengths(p, n);
        q := p;
      } else {
        q := Move(p, payload, n, i);
      }
    }

    /** The live block i at p, whether it has to change or not. */
    method Refit(p: nat, cur: nat, n: uint32, ghost i: nat) returns (q: nat)
      requires Control() && LayoutOk() && p != 0 && i == LiveAt(Blocks(), p) < |Blocks()|
      requires cur == Blocks()[i].addr && Need(n) != 0
      modifies this`used, this`highWater, this`records, mem
      ensures Control() && AgreeOutside(old(mem[..]), mem[..], base, base + size)
      ensures q == 0 ==> mem[..] == old(mem[..]) && unchanged(this)
      ensures LayoutOk() && (Abs(), q) == ReallocCall(old(Abs()), p, n)
      ensures KeepsLive(old(mem[..]), mem[..], old(Blocks()), p)
      ensures q != 0 ==> KeepsBlock(old(mem[..]), mem[..], old(Blocks()), p, q)
    {
      hide Word, HeaderWord, KeepsLive, KeepsBlock, UsedSum, Parse, Need, AllocCall, Enlarge, Chain;
      LayoutTiles();
      TileAt(mem[..], Blocks(), base, base + size, i);
      KeepsSame(mem[..], Blocks(), p);
      var payload := HeaderWord(cur);
      if Need(n) <= payload {
        q := p;
      } else {
        q := Widen(p, cur, payload, n, i);
      }
      if q != 0 {
        BlockKept(old(mem[..]), mem[..], old(Blocks()), p, q);
      }
    }

    /** lxp_arena_realloc: old payload bytes survive, failure changes nothing. */
    method Realloc(p: nat, n: uint32) returns (q: nat)
      requires Control()
      modifies this`used, this`highWater, this`records, mem
      ensures Control() && AgreeOutside(old(mem[..]), mem[..], base, base + size)
      ensures q == 0 ==> mem[..] == old(mem[..]) && unchanged(this)
      ensures !old(LayoutOk()) ==> q == 0
      ensures old(LayoutOk()) ==> LayoutOk() && (Abs(), q) == ReallocCall(old(Abs()), p, n)
      ensures old(LayoutOk()) ==> KeepsLive(old(mem[..]), mem[..], old(Blocks()), p)
      ensures old(LayoutOk()) && p != 0 && q != 0 ==> KeepsBlock(old(mem[..]), mem[..], old(Blocks()), p, q)
    {
      hide Word, HeaderWord, KeepsLive, KeepsBlock, UsedSum, Parse, Need, AllocCall, Enlarge, Chain;
      q := 0;
      if p == 0 {
        q := Alloc(n);
      } else {
        var ok := LayoutValid();
        KeepsSame(mem[..], if ok then Blocks() else [], p);
        if ok && Need(n) != 0 {
          var cur, prev, i := FindPayload(p);
          if cur != 0 {
            LayoutTiles();
            TileAt(mem[..], Blocks(), base, base + size, i);
            if HeaderWord(cur + 4) == 0 {
              q := Refit(p, cur, n, i);
            }
          }
        }
      }
    }
  }
}
