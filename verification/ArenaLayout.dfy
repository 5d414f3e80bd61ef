/** Block headers in guest-writable bytes: when a byte region encodes a block list, and how
    header stores turn one encoded list into another. */
module ArenaLayout {
  import opened Bytes
  import opened ArenaBlocks

  const MAGIC: uint32 := 0x4f41_5242

  /** The 16-byte header of b is stored at b.addr: payload, is_free, magic, padding. */
  ghost predicate HeaderAt(m: seq<byte>, b: Block) {
    && b.addr + HDR <= |m|
    && Word(m, b.addr) == b.payload
    && Word(m, b.addr + 4) == (if b.free then 1 else 0)
    && Word(m, b.addr + 8) == MAGIC
  }

  /** The tests arena_layout_valid makes on the header at cur, with `remain` bytes left. */
  predicate HeaderOk(m: seq<byte>, cur: nat, remain: nat)
    requires cur + HDR <= |m| && HDR <= remain
  {
    && Word(m, cur + 8) == MAGIC
    && Word(m, cur + 4) <= 1
    && Word(m, cur) >= ALIGN
    && Word(m, cur) % ALIGN == 0
    && Word(m, cur) <= remain - HDR
  }

  function BlockAt(m: seq<byte>, cur: nat): Block
    requires cur + HDR <= |m|
  {
    Block(cur, Word(m, cur), Word(m, cur + 4) == 1)
  }

  /** Decode the headers of [lo, hi); None when some header is not believable. */
  function Parse(m: seq<byte>, lo: nat, hi: nat): Option<seq<Block>>
    requires hi <= |m|
    decreases hi - lo
  {
    if lo >= hi then (if lo == hi then Some([]) else None)
    else if hi - lo < HDR || !HeaderOk(m, lo, hi - lo) then None
    else
      var b := BlockAt(m, lo);
      var rest := Parse(m, b.End(), hi);
      if rest.None? then None else Some([b] + rest.value)
  }

  /** The bytes of m encode exactly the tiling bs of [lo, hi). */
  ghost predicate Tiles(m: seq<byte>, bs: seq<Block>, lo: nat, hi: nat) {
    hi <= |m| && Chain(bs, lo, hi) && forall b :: b in bs ==> HeaderAt(m, b)
  }

  /** The walk depends on nothing but the bytes of the region. */
  lemma {:induction false} ParseLocal(m: seq<byte>, n: seq<byte>, lo: nat, hi: nat)
    requires hi <= |m| && Agree(m, n, lo, hi)
    ensures Parse(m, lo, hi) == Parse(n, lo, hi)
    decreases hi - lo
  {
    hide Word;
    if lo + HDR <= hi {
      WordFrame(m, n, lo);
      WordFrame(m, n, lo + 4);
      WordFrame(m, n, lo + 8);
      if HeaderOk(m, lo, hi - lo) { ParseLocal(m, n, BlockAt(m, lo).End(), hi); }
    }
  }

  lemma {:induction false} ParseTiles(m: seq<byte>, lo: nat, hi: nat)
    requires hi <= |m| && Parse(m, lo, hi).Some?
    ensures Tiles(m, Parse(m, lo, hi).value, lo, hi)
    decreases hi - lo
  {
    if lo < hi {
      var b := BlockAt(m, lo);
      ParseTiles(m, b.End(), hi);
      var bs := Parse(m, lo, hi).value;
      assert bs[1..] == Parse(m, b.End(), hi).value;
      assert HeaderAt(m, b);
    }
  }

  lemma {:induction false} TilesParse(m: seq<byte>, bs: seq<Block>, lo: nat, hi: nat)
    requires Tiles(m, bs, lo, hi)
    ensures Parse(m, lo, hi) == Some(bs)
    decreases |bs|
  {
    if bs != [] {
      var b := bs[0];
      assert b in bs && HeaderAt(m, b);
      TilesParse(m, bs[1..], b.End(), hi);
      UsedBounded(bs[1..], b.End(), hi);
      assert bs == [b] + bs[1..];
    }
  }

  function Prefixed(pre: seq<Block>, rest: Option<seq<Block>>): Option<seq<Block>> {
    if rest.None? then None else Some(pre + rest.value)
  }

  /** One believable header extends the decoded prefix by one block. */
  lemma WalkStep(m: seq<byte>, pre: seq<Block>, lo: nat, cur: nat, hi: nat)
    requires cur + HDR <= hi <= |m| && HeaderOk(m, cur, hi - cur) && Chain(pre, lo, cur)
    ensures var b := BlockAt(m, cur);
            && b.End() <= hi && Chain(pre + [b], lo, b.End())
            && UsedSum(pre + [b]) == UsedSum(pre) + Footprint(b) <= b.End() - lo
            && Prefixed(pre, Parse(m, cur, hi)) == Prefixed(pre + [b], Parse(m, b.End(), hi))
  {
    var b := BlockAt(m, cur);
    hide Word, Chain, UsedSum;
    ChainOne(b);
    ChainJoin(pre, [b], lo, cur, b.End());
    UsedAppend(pre, [b]);
    UsedPair(b, b);
    UsedBounded(pre + [b], lo, b.End());
    var rest := Parse(m, b.End(), hi);
    if rest.Some? {
      assert pre + ([b] + rest.value) == (pre + [b]) + rest.value;
    }
  }

  /** What a valid tiling says about its k-th block. */
  lemma TileAt(m: seq<byte>, bs: seq<Block>, lo: nat, hi: nat, k: nat)
    requires Tiles(m, bs, lo, hi) && k < |bs|
    ensures HeaderAt(m, bs[k]) && Shaped(bs[k]) && lo <= bs[k].addr && bs[k].End() <= hi
    ensures bs[k].End() == (if k + 1 < |bs| then bs[k + 1].addr else hi)
    ensures k + 1 < |bs| ==> bs[k].End() < hi
  {
    assert bs[k] in bs;
    ChainAt(bs, lo, hi, k);
    if k + 1 < |bs| {
      NextAddr(bs, lo, hi, k);
      ChainAt(bs, lo, hi, k + 1);
    } else {
      assert bs[k..][1..] == [];
    }
  }

  lemma HeaderFrame(m: seq<byte>, n: seq<byte>, b: Block)
    requires HeaderAt(m, b) && Agree(m, n, b.addr, b.addr + HDR)
    ensures HeaderAt(n, b)
  {
    hide Word;
    WordFrame(m, n, b.addr);
    WordFrame(m, n, b.addr + 4);
    WordFrame(m, n, b.addr + 8);
  }

  /** Stores confined to the bytes of blocks l..h-1 that leave the headers of y there turn the
      encoding of bs into the encoding of bs with that run replaced by y. */
  lemma SpliceTiles(m: seq<byte>, n: seq<byte>, bs: seq<Block>, l: nat, h: nat, y: seq<Block>, lo: nat, hi: nat)
    requires Tiles(m, bs, lo, hi) && l < h <= |bs|
    requires AgreeOutside(m, n, bs[l].addr, bs[h - 1].End())
    requires Chain(bs[..l] + y + bs[h..], lo, hi)
    requires forall b :: b in y ==> HeaderAt(n, b)
    ensures Tiles(n, bs[..l] + y + bs[h..], lo, hi)
  {
    hide Word;
    forall b | b in bs[..l] + y + bs[h..] ensures HeaderAt(n, b) {
      if b !in y {
        var j :| 0 <= j < |bs| && bs[j] == b && (j < l || j >= h);
        assert HeaderAt(m, b);
        if j < l {
          ChainOrder(bs, lo, hi, j, l);
        } else {
          ChainOrder(bs, lo, hi, h - 1, j);
        }
        HeaderFrame(m, n, b);
      }
    }
  }

  /** Bytes written inside one block's payload leave every header alone. */
  lemma PayloadWrite(m: seq<byte>, n: seq<byte>, bs: seq<Block>, j: nat, lo: nat, hi: nat)
    requires Tiles(m, bs, lo, hi) && j < |bs|
    requires AgreeOutside(m, n, bs[j].Data(), bs[j].End())
    ensures Tiles(n, bs, lo, hi)
  {
    hide Word;
    forall b | b in bs ensures HeaderAt(n, b) {
      var k :| 0 <= k < |bs| && bs[k] == b;
      assert HeaderAt(m, b);
      if k < j {
        ChainOrder(bs, lo, hi, k, j);
      } else if k > j {
        ChainOrder(bs, lo, hi, j, k);
      }
      HeaderFrame(m, n, b);
    }
  }

  // ---- header stores --------------------------------------------------------------

  lemma SetPayload(m: seq<byte>, n: seq<byte>, b: Block, v: nat)
    requires HeaderAt(m, b) && Stored(m, n, b.addr, v)
    ensures HeaderAt(n, b.(payload := v))
  {
    hide Word;
    WordFrame(m, n, b.addr + 4);
    WordFrame(m, n, b.addr + 8);
  }

  lemma SetFree(m: seq<byte>, n: seq<byte>, b: Block, free: bool)
    requires HeaderAt(m, b) && Stored(m, n, b.addr + 4, if free then 1 else 0)
    ensures HeaderAt(n, b.(free := free))
  {
    hide Word;
    WordFrame(m, n, b.addr);
    WordFrame(m, n, b.addr + 8);
  }

  lemma HeaderWords(m0: seq<byte>, m1: seq<byte>, m2: seq<byte>, m3: seq<byte>, b: Block)
    requires Stored(m0, m1, b.addr, b.payload) && b.addr + HDR <= |m0|
    requires Stored(m1, m2, b.addr + 4, if b.free then 1 else 0)
    requires Stored(m2, m3, b.addr + 8, MAGIC)
    ensures HeaderAt(m3, b) && AgreeOutside(m0, m3, b.addr, b.addr + 12)
  {
    hide Word;
    WordFrame(m1, m2, b.addr);
    WordFrame(m2, m3, b.addr);
    WordFrame(m2, m3, b.addr + 4);
  }

  method StoreHeader(mem: array<byte>, b: Block)
    requires b.addr + HDR <= mem.Length && b.payload < TWO32
    modifies mem
    ensures HeaderAt(mem[..], b) && AgreeOutside(old(mem[..]), mem[..], b.addr, b.addr + 12)
  {
    hide Word, HeaderAt;
    ghost var m0 := mem[..];
    StoreWord(mem, b.addr, b.payload);
    ghost var m1 := mem[..];
    StoreWord(mem, b.addr + 4, if b.free then 1 else 0);
    ghost var m2 := mem[..];
    StoreWord(mem, b.addr + 8, MAGIC);
    HeaderWords(m0, m1, m2, mem[..], b);
  }

  /** Shorten b to need bytes and lay a free header over its tail. */
  method SplitStores(mem: array<byte>, b: Block, need: nat)
    requires b.End() <= mem.Length && need + HDR + ALIGN <= b.payload < TWO32 && HeaderAt(mem[..], b)
    modifies mem
    ensures HeaderAt(mem[..], b.(payload := need))
    ensures HeaderAt(mem[..], Block(b.addr + HDR + need, b.payload - need - HDR, true))
    ensures forall k | 0 <= k < mem.Length && !(b.addr <= k < b.addr + HDR) ::
              b.addr + HDR + need <= k < b.addr + HDR + need + HDR || mem[k] == old(mem[k])
  {
    hide Word, HeaderAt;
    ghost var m0 := mem[..];
    var rem := Block(b.addr + HDR + need, b.payload - need - HDR, true);
    StoreHeader(mem, rem);
    ghost var m1 := mem[..];
    HeaderFrame(m0, m1, b);
    StoreWord(mem, b.addr, need);
    SetPayload(m1, mem[..], b, need);
    HeaderFrame(m1, mem[..], rem);
  }

  /** The stores of lxp_arena_alloc on the chosen block: split off the tail, clear is_free. */
  method TakeStores(mem: array<byte>, b: Block, need: nat)
    requires b.End() <= mem.Length && need <= b.payload < TWO32 && HeaderAt(mem[..], b)
    modifies mem
    ensures AgreeOutside(old(mem[..]), mem[..], b.addr, b.End())
    ensures forall x :: x in Carve(b, need) ==> HeaderAt(mem[..], x)
  {
    hide Word, HeaderAt;
    var kept := b;
    if b.payload - need >= HDR + ALIGN {
      SplitStores(mem, b, need);
      kept := b.(payload := need);
    }
    ghost var m2 := mem[..];
    StoreWord(mem, b.addr + 4, 0);
    SetFree(m2, mem[..], kept, false);
    if b.payload - need >= HDR + ALIGN {
      HeaderFrame(m2, mem[..], Block(b.addr + HDR + need, b.payload - need - HDR, true));
    }
  }

  /** The stores of the in-place branch of lxp_arena_realloc: block b swallows its successor c. */
  method GrowStores(mem: array<byte>, b: Block, c: Block, need: nat)
    requires b.End() == c.addr && c.End() <= mem.Length && b.payload + HDR + c.payload < TWO32
    requires b.payload < need <= b.payload + HDR + c.payload
    requires HeaderAt(mem[..], b) && !b.free && b.payload >= ALIGN
    modifies mem
    ensures AgreeOutside(old(mem[..]), mem[..], b.addr, c.End())
    ensures Agree(old(mem[..]), mem[..], b.Data(), b.End())
    ensures forall x :: x in Carve(Block(b.addr, b.payload + HDR + c.payload, true), need) ==> HeaderAt(mem[..], x)
  {
    hide Word, HeaderAt;
    ghost var m0 := mem[..];
    var all := b.payload + HDR + c.payload;
    StoreWord(mem, c.addr + 8, 0);
    ghost var m1 := mem[..];
    HeaderFrame(m0, m1, b);
    StoreWord(mem, b.addr, all);
    ghost var m2 := mem[..];
    SetPayload(m1, m2, b, all);
    if all - need >= HDR + ALIGN {
      SplitStores(mem, b.(payload := all), need);
    }
  }

  /** The stores of arena_free_block on block b: mark it free, swallow a free successor, and
      disappear into a free predecessor. */
  method FreeStores(mem: array<byte>, prev: Option<Block>, b: Block, next: Option<Block>)
    requires b.payload >= ALIGN && b.End() <= mem.Length <= TWO32 && HeaderAt(mem[..], b)
    requires next.Some? ==> b.End() == next.value.addr && next.value.End() <= mem.Length && next.value.free
    requires prev.Some? ==>
        prev.value.End() == b.addr && HeaderAt(mem[..], prev.value) && prev.value.free && prev.value.payload >= ALIGN
    modifies mem
    ensures var tail := b.payload + (if next.Some? then HDR + next.value.payload else 0);
            var hi := if next.Some? then next.value.End() else b.End();
            if prev.Some? then
              HeaderAt(mem[..], Block(prev.value.addr, prev.value.payload + HDR + tail, true))
              && AgreeOutside(old(mem[..]), mem[..], prev.value.addr, hi)
            else
              HeaderAt(mem[..], Block(b.addr, tail, true)) && AgreeOutside(old(mem[..]), mem[..], b.addr, hi)
  {
    hide Word, HeaderAt;
    ghost var m0 := mem[..];
    StoreWord(mem, b.addr + 4, 1);
    ghost var m1 := mem[..];
    SetFree(m0, m1, b, true);
    var tail := b.payload;
    if next.Some? {
      tail := tail + (HDR + next.value.payload);
      StoreWord(mem, b.addr, tail);
      ghost var m2 := mem[..];
      SetPayload(m1, m2, b.(free := true), tail);
      StoreWord(mem, next.value.addr + 8, 0);
      HeaderFrame(m2, mem[..], b.(free := true, payload := tail));
    }
    if prev.Some? {
      ghost var m3 := mem[..];
      HeaderFrame(m0, m3, prev.value);
      StoreWord(mem, prev.value.addr, prev.value.payload + HDR + tail);
      ghost var m4 := mem[..];
      SetPayload(m3, m4, prev.value, prev.value.payload + HDR + tail);
      StoreWord(mem, b.addr + 8, 0);
      HeaderFrame(m4, mem[..], prev.value.(payload := prev.value.payload + HDR + tail));
    }
  }
}
