/** The arena allocator seen as a list of physical blocks: what each call does to the list,
    independent of where the headers that encode the list are stored. */
module ArenaBlocks {

  const HDR: nat := 16            // header rounded up to the alignment
  const ALIGN: nat := 16
  const SIZE_MAX: nat := 0xFFFF_FFFF

  datatype Block = Block(addr: nat, payload: nat, free: bool) {
    function End(): nat { addr + HDR + payload }
    function Data(): nat { addr + HDR }
  }

  predicate Shaped(b: Block) {
    b.payload >= ALIGN && b.payload % ALIGN == 0
  }

  /** The blocks of bs tile [lo, hi) exactly, in address order. */
  ghost predicate Chain(bs: seq<Block>, lo: nat, hi: nat) {
    if bs == [] then lo == hi
    else bs[0].addr == lo && Shaped(bs[0]) && bs[0].End() <= hi && Chain(bs[1..], bs[0].End(), hi)
  }

  /** Where a tiling that starts at lo stops. */
  function Reach(bs: seq<Block>, lo: nat): nat {
    if bs == [] then lo else bs[|bs| - 1].End()
  }

  /** No two neighbouring blocks are both free. */
  ghost predicate Coalesced(bs: seq<Block>) {
    forall i, j :: 0 <= i < |bs| && j == i + 1 && j < |bs| ==> !(bs[i].free && bs[j].free)
  }

  function Footprint(b: Block): nat {
    if b.free then 0 else HDR + b.payload
  }

  function UsedSum(bs: seq<Block>): nat {
    if bs == [] then 0 else Footprint(bs[0]) + UsedSum(bs[1..])
  }

  // ---- tilings ----------------------------------------------------------------

  lemma {:induction false} ChainCut(a: seq<Block>, b: seq<Block>, lo: nat, hi: nat)
    requires Chain(a + b, lo, hi)
    ensures Chain(a, lo, Reach(a, lo)) && Chain(b, Reach(a, lo), hi)
    ensures lo <= Reach(a, lo) <= hi
    decreases |a| + |b|
  {
    if a == [] {
      assert a + b == b;
      if b != [] {
        assert [] + b[1..] == b[1..];
        ChainCut([], b[1..], b[0].End(), hi);
      }
    } else {
      assert (a + b)[1..] == a[1..] + b;
      ChainCut(a[1..], b, a[0].End(), hi);
    }
  }

  lemma {:induction false} ChainJoin(a: seq<Block>, b: seq<Block>, lo: nat, mid: nat, hi: nat)
    requires Chain(a, lo, mid) && Chain(b, mid, hi)
    ensures Chain(a + b, lo, hi)
    ensures mid == Reach(a, lo) && lo <= mid <= hi
  {
    ChainCut(b, [], mid, hi) by { assert b + [] == b; }
    if a == [] {
      assert a + b == b;
    } else {
      assert (a + b)[1..] == a[1..] + b;
      ChainJoin(a[1..], b, a[0].End(), mid, hi);
    }
  }

  /** Replacing a run of blocks by another tiling of the same bytes keeps the tiling. */
  lemma ChainSplice(a: seq<Block>, x: seq<Block>, y: seq<Block>, c: seq<Block>, lo: nat, hi: nat)
    requires Chain(a + x + c, lo, hi)
    requires Chain(y, Reach(a, lo), Reach(x, Reach(a, lo)))
    ensures Chain(a + y + c, lo, hi)
  {
    var s := Reach(a, lo);
    assert a + x + c == a + (x + c);
    ChainCut(a, x + c, lo, hi);
    ChainCut(x, c, s, hi);
    ChainJoin(y, c, s, Reach(x, s), hi);
    ChainJoin(a, y + c, lo, s, hi);
    assert a + y + c == a + (y + c);
  }

  lemma {:induction false} ChainAt(bs: seq<Block>, lo: nat, hi: nat, i: nat)
    requires Chain(bs, lo, hi) && i < |bs|
    ensures Shaped(bs[i]) && lo <= bs[i].addr && bs[i].End() <= hi
    ensures bs[i].addr == Reach(bs[..i], lo)
    ensures (bs[i].addr - lo) % ALIGN == 0
    ensures Chain(bs[i..], bs[i].addr, hi)
  {
    if i == 0 {
      assert bs[0..] == bs;
    } else {
      ChainAt(bs[1..], bs[0].End(), hi, i - 1);
      assert bs[1..][i - 1] == bs[i];
      assert bs[1..][..i - 1] == bs[..i][1..];
      assert bs[1..][i - 1..] == bs[i..];
    }
  }

  lemma ChainOrder(bs: seq<Block>, lo: nat, hi: nat, i: nat, j: nat)
    requires Chain(bs, lo, hi) && i < j < |bs|
    ensures bs[i].End() <= bs[j].addr
  {
    ChainAt(bs, lo, hi, i);
    assert bs[i..][1..] == bs[i + 1..];
    ChainAt(bs[i + 1..], bs[i].End(), hi, j - i - 1);
    assert bs[i + 1..][j - i - 1] == bs[j];
  }

  lemma {:induction false} UsedAppend(a: seq<Block>, b: seq<Block>)
    ensures UsedSum(a + b) == UsedSum(a) + UsedSum(b)
  {
    if a == [] {
      assert a + b == b;
    } else {
      assert (a + b)[1..] == a[1..] + b;
      UsedAppend(a[1..], b);
    }
  }

  lemma {:induction false} UsedBounded(bs: seq<Block>, lo: nat, hi: nat)
    requires Chain(bs, lo, hi)
    ensures lo <= hi && UsedSum(bs) <= hi - lo
  {
    if bs != [] {
      UsedBounded(bs[1..], bs[0].End(), hi);
    }
  }

  /** Used bytes after splicing one run for another. */
  lemma UsedSplice(a: seq<Block>, x: seq<Block>, y: seq<Block>, c: seq<Block>)
    ensures UsedSum(a + y + c) + UsedSum(x) == UsedSum(a + x + c) + UsedSum(y)
  {
    UsedAppend(a + y, c);
    UsedAppend(a, y);
    UsedAppend(a + x, c);
    UsedAppend(a, x);
  }

  lemma UsedPair(b: Block, c: Block)
    ensures UsedSum([b]) == Footprint(b)
    ensures UsedSum([b, c]) == Footprint(b) + Footprint(c)
  {
    assert [b, c][1..] == [c];
    assert [c][1..] == [] && [b][1..] == [];
  }

  // ---- searching ----------------------------------------------------------------

  /** The first free block that can hold need bytes, or |bs|. */
  function FirstFit(bs: seq<Block>, need: nat): (i: nat)
    ensures i <= |bs|
    ensures i < |bs| ==> bs[i].free && bs[i].payload >= need
    ensures forall j :: 0 <= j < i ==> !(bs[j].free && bs[j].payload >= need)
  {
    if bs == [] then 0
    else if bs[0].free && bs[0].payload >= need then 0
    else 1 + FirstFit(bs[1..], need)
  }

  /** The block whose payload starts exactly at p, or |bs|. */
  function FindData(bs: seq<Block>, p: nat): (i: nat)
    ensures i <= |bs|
    ensures i < |bs| ==> bs[i].Data() == p
    ensures forall j :: 0 <= j < i ==> bs[j].Data() != p
  {
    if bs == [] then 0
    else if bs[0].Data() == p then 0
    else 1 + FindData(bs[1..], p)
  }

  /** arena_align of a request; 0 means the rounding would wrap. */
  function Need(n: nat): (r: nat)
    ensures r % ALIGN == 0
    ensures n <= SIZE_MAX - 15 ==> r >= n && r >= ALIGN && (r == ALIGN || r < n + ALIGN)
    ensures n > SIZE_MAX - 15 ==> r == 0
  {
    var m := if n == 0 then 1 else n;
    if m > SIZE_MAX - (ALIGN - 1) then 0 else (m + (ALIGN - 1)) / ALIGN * ALIGN
  }

  // ---- the calls on lists ---------------------------------------------------------

  /** What becomes of an extent when its first need bytes are allocated: the tail is split off
      when it can hold a header and a minimum slot. */
  function Carve(b: Block, need: nat): seq<Block>
    requires need <= b.payload
  {
    if b.payload - need >= HDR + ALIGN then
      [Block(b.addr, need, false), Block(b.addr + HDR + need, b.payload - need - HDR, true)]
    else [b.(free := false)]
  }

  function TakeAt(bs: seq<Block>, i: nat, need: nat): seq<Block>
    requires i < |bs| && need <= bs[i].payload
  {
    bs[..i] + Carve(bs[i], need) + bs[i + 1..]
  }

  /** The block i and its free successor, as one extent. */
  function Fused(bs: seq<Block>, i: nat): Block
    requires i + 1 < |bs|
  {
    Block(bs[i].addr, bs[i].payload + HDR + bs[i + 1].payload, true)
  }

  predicate CanGrow(bs: seq<Block>, i: nat, need: nat)
    requires i < |bs|
  {
    i + 1 < |bs| && bs[i + 1].free && Fused(bs, i).payload >= need
  }

  function GrowAt(bs: seq<Block>, i: nat, need: nat): seq<Block>
    requires i < |bs| && CanGrow(bs, i, need)
  {
    bs[..i] + Carve(Fused(bs, i), need) + bs[i + 2..]
  }

  /** The index range that coalesces into one free block when block i is released. */
  function MergeLo(bs: seq<Block>, i: nat): (r: nat)
    requires i < |bs|
    ensures r <= i
  {
    if i > 0 && bs[i - 1].free then i - 1 else i
  }

  function MergeHi(bs: seq<Block>, i: nat): (r: nat)
    requires i < |bs|
    ensures i < r <= |bs|
  {
    if i + 1 < |bs| && bs[i + 1].free then i + 2 else i + 1
  }

  function Merged(bs: seq<Block>, i: nat): (r: Block)
    requires i < |bs|
    ensures r.free
  {
    var lo, hi := MergeLo(bs, i), MergeHi(bs, i);
    var tail := bs[i].payload + (if hi == i + 2 then HDR + bs[i + 1].payload else 0);
    Block(bs[lo].addr, if lo == i then tail else bs[lo].payload + HDR + tail, true)
  }

  function FreeAt(bs: seq<Block>, i: nat): seq<Block>
    requires i < |bs|
  {
    bs[..MergeLo(bs, i)] + [Merged(bs, i)] + bs[MergeHi(bs, i)..]
  }

  // ---- what one splice keeps --------------------------------------------------------

  lemma CarveTiles(b: Block, need: nat)
    requires Shaped(b) && ALIGN <= need <= b.payload && need % ALIGN == 0
    ensures Chain(Carve(b, need), b.addr, b.End())
    ensures forall x :: x in Carve(b, need) && !x.free ==> x.addr == b.addr && x.payload >= need
  {
    var y := Carve(b, need);
    if |y| == 2 {
      assert y[1..] == [y[1]];
      assert [y[1]][1..] == [];
    } else {
      assert y[1..] == [];
    }
  }

  lemma TakeKeeps(bs: seq<Block>, lo: nat, hi: nat, i: nat, need: nat)
    requires Chain(bs, lo, hi) && i < |bs| && bs[i].free
    requires ALIGN <= need <= bs[i].payload && need % ALIGN == 0
    ensures Chain(TakeAt(bs, i, need), lo, hi)
    ensures UsedSum(TakeAt(bs, i, need)) == UsedSum(bs) + HDR + TakeAt(bs, i, need)[i].payload
    ensures Coalesced(bs) ==> Coalesced(TakeAt(bs, i, need))
  {
    var a, x, y, c := bs[..i], [bs[i]], Carve(bs[i], need), bs[i + 1..];
    assert bs == a + x + c;
    ChainAt(bs, lo, hi, i);
    CarveTiles(bs[i], need);
    ChainSplice(a, x, y, c, lo, hi);
    UsedSplice(a, x, y, c);
    UsedPair(y[0], y[|y| - 1]);
    UsedPair(bs[i], bs[i]);
    assert (a + y + c)[i] == y[0];
  }

  lemma GrowKeeps(bs: seq<Block>, lo: nat, hi: nat, i: nat, need: nat)
    requires Chain(bs, lo, hi) && i < |bs| && !bs[i].free && CanGrow(bs, i, need)
    requires bs[i].payload < need && need % ALIGN == 0
    ensures Chain(GrowAt(bs, i, need), lo, hi)
    ensures UsedSum(GrowAt(bs, i, need)) + bs[i].payload == UsedSum(bs) + GrowAt(bs, i, need)[i].payload
    ensures Coalesced(bs) ==> Coalesced(GrowAt(bs, i, need))
  {
    hide Chain, UsedSum;
    var f := Fused(bs, i);
    var a, x, y, c := bs[..i], [bs[i], bs[i + 1]], Carve(f, need), bs[i + 2..];
    assert bs == a + x + c;
    GrowSpan(bs, lo, hi, i);
    CarveTiles(f, need);
    ChainSplice(a, x, y, c, lo, hi);
    UsedSplice(a, x, y, c);
    UsedPair(y[0], y[|y| - 1]);
    UsedPair(bs[i], bs[i + 1]);
    assert (a + y + c)[i] == y[0];
  }

  /** A block and its successor span one stretch. */
  lemma GrowSpan(bs: seq<Block>, lo: nat, hi: nat, i: nat)
    requires Chain(bs, lo, hi) && i + 1 < |bs|
    ensures Shaped(bs[i]) && Shaped(bs[i + 1]) && Shaped(Fused(bs, i))
    ensures bs[i].addr == Reach(bs[..i], lo) && bs[i + 1].addr == bs[i].End()
  {
    hide Chain;
    ChainAt(bs, lo, hi, i);
    ChainAt(bs, lo, hi, i + 1);
    assert Reach(bs[..i + 1], lo) == bs[i].End();
    assert Shaped(Fused(bs, i)) by { FusedShape(bs[i].payload, bs[i + 1].payload); }
  }

  lemma FusedShape(p: nat, q: nat)
    requires p % ALIGN == 0 && q % ALIGN == 0
    ensures (p + HDR + q) % ALIGN == 0
  {
  }

  lemma NextAddr(bs: seq<Block>, lo: nat, hi: nat, i: nat)
    requires Chain(bs, lo, hi) && i + 1 < |bs|
    ensures bs[i + 1].addr == bs[i].End() && Shaped(bs[i]) && Shaped(bs[i + 1])
  {
    ChainAt(bs, lo, hi, i);
    ChainAt(bs, lo, hi, i + 1);
    assert bs[..i + 1][i] == bs[i];
  }

  lemma MergedSpan(bs: seq<Block>, lo: nat, hi: nat, i: nat)
    requires Chain(bs, lo, hi) && i < |bs|
    ensures Merged(bs, i).addr == bs[MergeLo(bs, i)].addr
    ensures Merged(bs, i).End() == bs[MergeHi(bs, i) - 1].End()
    ensures Shaped(Merged(bs, i))
  {
    ChainAt(bs, lo, hi, i);
    var tail := bs[i].payload;
    if MergeHi(bs, i) == i + 2 {
      NextAddr(bs, lo, hi, i);
      FusedShape(tail, bs[i + 1].payload);
      tail := tail + (HDR + bs[i + 1].payload);
    }
    if MergeLo(bs, i) < i {
      NextAddr(bs, lo, hi, i - 1);
      FusedShape(bs[i - 1].payload, tail);
    }
  }

  lemma ChainFuse(bs: seq<Block>, lo: nat, hi: nat, l: nat, h: nat, m: Block)
    requires Chain(bs, lo, hi) && l < h <= |bs|
    requires m.addr == bs[l].addr && m.End() == bs[h - 1].End() && Shaped(m)
    ensures Chain(bs[..l] + [m] + bs[h..], lo, hi)
  {
    hide Chain;
    assert bs == bs[..l] + bs[l..h] + bs[h..];
    ChainAt(bs, lo, hi, l);
    ChainOne(m);
    ChainSplice(bs[..l], bs[l..h], [m], bs[h..], lo, hi);
  }

  lemma FreeKeeps(bs: seq<Block>, lo: nat, hi: nat, i: nat)
    requires Chain(bs, lo, hi) && i < |bs| && !bs[i].free
    ensures Chain(FreeAt(bs, i), lo, hi)
    ensures UsedSum(FreeAt(bs, i)) + HDR + bs[i].payload == UsedSum(bs)
  {
    var l, h := MergeLo(bs, i), MergeHi(bs, i);
    MergedSpan(bs, lo, hi, i);
    ChainFuse(bs, lo, hi, l, h, Merged(bs, i));
    UsedFuse(bs, l, i, h, Merged(bs, i));
  }

  lemma UsedFuse(bs: seq<Block>, l: nat, i: nat, h: nat, m: Block)
    requires l <= i < h <= |bs| && i <= l + 1 && h <= i + 2 && m.free
    requires forall j :: l <= j < h && j != i ==> bs[j].free
    ensures UsedSum(bs[..l] + [m] + bs[h..]) + Footprint(bs[i]) == UsedSum(bs)
  {
    hide UsedSum;
    assert bs == bs[..l] + bs[l..h] + bs[h..];
    UsedSplice(bs[..l], bs[l..h], [m], bs[h..]);
    UsedPair(m, m);
    UsedRun(bs, l, i, h);
  }

  lemma ChainOne(b: Block)
    requires Shaped(b)
    ensures Chain([b], b.addr, b.End())
  {
    assert [b][1..] == [];
  }

  lemma FreeCoalesces(bs: seq<Block>, i: nat)
    requires i < |bs| && !bs[i].free && Coalesced(bs)
    ensures Coalesced(FreeAt(bs, i))
  {
    var l, h := MergeLo(bs, i), MergeHi(bs, i);
    var r := FreeAt(bs, i);
    forall p, q | 0 <= p < |r| && q == p + 1 && q < |r| ensures !(r[p].free && r[q].free) {
      if q < l {
        assert r[p] == bs[p] && r[q] == bs[q];
      } else if q == l {
        assert r[p] == bs[p];
        assert p >= 0 && l > 0;
        assert l == i || bs[l].free;
      } else if p == l {
        assert r[q] == bs[h];
        assert h == i + 1 || bs[h - 1].free;
      } else {
        assert r[p] == bs[p - l - 1 + h] && r[q] == bs[q - l - 1 + h];
      }
    }
  }

  lemma UsedRun(bs: seq<Block>, l: nat, i: nat, h: nat)
    requires l <= i < h <= |bs| && i <= l + 1 && h <= i + 2
    requires forall j :: l <= j < h && j != i ==> bs[j].free
    ensures UsedSum(bs[l..h]) == Footprint(bs[i])
  {
    assert bs[l..h] == bs[l..i] + [bs[i]] + bs[i + 1..h];
    UsedAppend(bs[l..i] + [bs[i]], bs[i + 1..h]);
    UsedAppend(bs[l..i], [bs[i]]);
    UsedPair(bs[i], bs[i]);
    if l < i { assert bs[l..i] == [bs[l]]; UsedPair(bs[l], bs[l]); }
    if i + 1 < h { assert bs[i + 1..h] == [bs[i + 1]]; UsedPair(bs[i + 1], bs[i + 1]); }
  }
}
