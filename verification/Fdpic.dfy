/** Placing an FDPIC image: text in place or copied to the region head, RW segments packed into
    the region, and the loadmap that records where each segment went. */
module Fdpic {
  import opened Bytes
  import opened Elf

  /** One load: the file at img, the region [reg, reg + size), the parsed layout. */
  datatype Place = Place(img: nat, reg: nat, size: nat, l: Layout, copy: bool, ls: seq<Phdr>) {
    function Base(): nat { reg + l.textReserved }
    function Loadmap(): nat { Base() + l.rwAligned }
    function LoadmapEnd(): nat { Loadmap() + l.loadmapSize }
    function Pool(): nat { Base() + Up8(l.rwAligned + l.loadmapSize) }

    /** The runtime address given to a segment. */
    function Addr(h: Phdr): int {
      if h.Exec() then (if copy then reg else img + h.off) else Base() + (h.vaddr - l.rwLo)
    }
  }

  // ---- loadmap resolution ------------------------------------------------------------

  datatype Entry = Entry(addr: uint32, pv: uint32, msz: uint32)

  function EntryIn(m: seq<byte>, lm: nat, k: nat): Entry
    requires lm + 4 + 12 * k + 12 <= |m|
  {
    Entry(Word(m, lm + 4 + 12 * k), Word(m, lm + 4 + 12 * k + 4), Word(m, lm + 4 + 12 * k + 8))
  }

  /** The loadmap stored at lm. */
  function Entries(m: seq<byte>, lm: nat, n: nat): (r: seq<Entry>)
    requires lm + 4 + 12 * n <= |m|
    ensures |r| == n
  {
    seq(n, k requires 0 <= k < n => EntryIn(m, lm, k))
  }

  /** fdpic_rt: 0 if unmapped. */
  function Rt(es: seq<Entry>, v: nat): nat {
    if es == [] then 0
    else if es[0].pv <= v < es[0].pv + es[0].msz then es[0].addr + (v - es[0].pv)
    else Rt(es[1..], v)
  }

  /** fdpic_rt_n: the whole of [v, v + need) in one segment. */
  function RtN(es: seq<Entry>, v: nat, need: nat): nat {
    if es == [] || v > UINT32_MAX then 0
    else if es[0].pv <= v && v + need <= es[0].pv + es[0].msz then es[0].addr + (v - es[0].pv)
    else RtN(es[1..], v, need)
  }

  // ---- geometry ------------------------------------------------------------------------

  predicate ApartSegs(a: Phdr, b: Phdr) {
    a.memsz == 0 || b.memsz == 0 || a.vaddr + a.memsz <= b.vaddr || b.vaddr + b.memsz <= a.vaddr
  }

  /** No two PT_LOADs overlap and only one is executable. */
  ghost predicate Separate(ls: seq<Phdr>) {
    forall j, k :: 0 <= j < k < |ls| ==> ApartSegs(ls[j], ls[k]) && !(ls[j].Exec() && ls[k].Exec())
  }

  /** File image and region are disjoint ranges of a 32-bit memory of `top` bytes. */
  predicate Mapped(p: Place, fileSize: nat, top: nat) {
    && 0 < p.img && p.img + fileSize <= top && 0 < p.reg && p.reg + p.size <= top < TWO32
    && (p.img + fileSize <= p.reg || p.reg + p.size <= p.img)
  }

  predicate SegFits(p: Place, h: Phdr, fileSize: nat) {
    && h.kind == PT_LOAD && SegOk(h, fileSize)
    && (if h.Exec() then (p.copy ==> h.memsz <= p.l.textReserved)
        else p.l.rwLo <= h.vaddr && h.vaddr + h.memsz <= p.l.rwLo + p.l.rwSpan)
  }

  /** What the parse guarantees about a load whose segments are separate. */
  ghost predicate Sound(p: Place, fileSize: nat, top: nat) {
    && Mapped(p, fileSize, top)
    && (forall k :: 0 <= k < |p.ls| ==> SegFits(p, p.ls[k], fileSize))
    && Separate(p.ls)
    && (!p.copy ==> p.l.textReserved == 0)
    && p.l.rwSpan <= p.l.rwAligned && p.l.loadmapSize == 4 + 12 * |p.ls| && p.l.nload == |p.ls|
    && p.l.textReserved + p.l.rwAligned + p.l.loadmapSize <= p.size
  }

  /** Where segment k lies, and that nothing else lies there. */
  lemma SegInside(p: Place, fileSize: nat, top: nat, k: nat)
    requires Sound(p, fileSize, top) && k < |p.ls|
    ensures var a, h := p.Addr(p.ls[k]), p.ls[k];
            && 0 < a && a + h.memsz <= top
            && ((p.reg <= a && a + h.memsz <= p.Loadmap()) || (p.img <= a && a + h.memsz <= p.img + fileSize))
            && (!h.Exec() ==> p.Base() <= a && a + h.memsz <= p.Base() + p.l.rwSpan)
            && (h.Exec() && p.copy ==> a + h.memsz <= p.Base())
            && (h.Exec() && !p.copy ==> p.img <= a && a + h.memsz <= p.img + fileSize)
  {
    assert SegFits(p, p.ls[k], fileSize);
  }

  lemma SegsApart(p: Place, fileSize: nat, top: nat, j: nat, k: nat)
    requires Sound(p, fileSize, top) && j < |p.ls| && k < |p.ls| && j != k
    requires p.ls[j].memsz > 0 && p.ls[k].memsz > 0
    ensures var a, b := p.Addr(p.ls[j]), p.Addr(p.ls[k]);
            a + p.ls[j].memsz <= b || b + p.ls[k].memsz <= a
  {
    hide SegFits;
    SegInside(p, fileSize, top, j);
    SegInside(p, fileSize, top, k);
    var x, y := if j < k then j else k, if j < k then k else j;
    assert ApartSegs(p.ls[x], p.ls[y]) && !(p.ls[x].Exec() && p.ls[y].Exec());
  }

  // ---- contents ------------------------------------------------------------------------

  /** Byte d of a segment: from the file, then zero. */
  function SegByte(f: seq<byte>, h: Phdr, d: nat): byte
    requires h.off + h.filesz <= |f|
  {
    if d < h.filesz then f[h.off + d] else 0
  }

  /** Segment h is at its runtime address; a segment not yet copied reads as zero. */
  ghost predicate SegAt(m: seq<byte>, p: Place, f: seq<byte>, h: Phdr, done: bool) {
    && h.off + h.filesz <= |f|
    && 0 <= p.Addr(h) && p.Addr(h) + h.memsz <= |m|
    && forall a :: p.Addr(h) <= a < p.Addr(h) + h.memsz ==> m[a] == (if done then SegByte(f, h, a - p.Addr(h)) else 0)
  }

  ghost predicate EntryOk(m: seq<byte>, p: Place, k: nat)
    requires k < |p.ls|
  {
    && p.Loadmap() + 4 + 12 * k + 12 <= |m|
    && Word(m, p.Loadmap() + 4 + 12 * k) == p.Addr(p.ls[k])
    && Word(m, p.Loadmap() + 4 + 12 * k + 4) == p.ls[k].vaddr
    && Word(m, p.Loadmap() + 4 + 12 * k + 8) == p.ls[k].memsz
  }

  /** After n of the PT_LOADs are placed. */
  ghost predicate PlacedTo(m: seq<byte>, p: Place, f: seq<byte>, n: nat)
    requires n <= |p.ls|
  {
    && (forall k :: 0 <= k < |p.ls| && (k < n || !p.ls[k].Exec()) ==> SegAt(m, p, f, p.ls[k], k < n))
    && (forall k :: 0 <= k < n ==> EntryOk(m, p, k))
    && (p.img + |f| <= |m| && m[p.img..p.img + |f|] == f)
  }

  lemma SegFrame(m: seq<byte>, n: seq<byte>, p: Place, f: seq<byte>, h: Phdr, done: bool, lo: int, hi: int)
    requires SegAt(m, p, f, h, done) && AgreeOutside(m, n, lo, hi)
    requires h.memsz == 0 || lo >= hi || hi <= p.Addr(h) || p.Addr(h) + h.memsz <= lo
    ensures SegAt(n, p, f, h, done)
  {
  }

  lemma EntryFrame(m: seq<byte>, n: seq<byte>, p: Place, k: nat, lo: int, hi: int)
    requires k < |p.ls| && EntryOk(m, p, k) && AgreeOutside(m, n, lo, hi)
    requires hi <= p.Loadmap() + 4 + 12 * k || p.Loadmap() + 4 + 12 * k + 12 <= lo
    ensures EntryOk(n, p, k)
  {
    hide Word;
    WordFrame(m, n, p.Loadmap() + 4 + 12 * k);
    WordFrame(m, n, p.Loadmap() + 4 + 12 * k + 4);
    WordFrame(m, n, p.Loadmap() + 4 + 12 * k + 8);
  }

  lemma ImageFrame(m: seq<byte>, n: seq<byte>, p: Place, f: seq<byte>, top: nat)
    requires |m| == top && Mapped(p, |f|, top) && m[p.img..p.img + |f|] == f
    requires AgreeOutside(m, n, p.reg, p.reg + p.size)
    ensures n[p.img..p.img + |f|] == f
  {
  }

  // ---- the stores ------------------------------------------------------------------------

  /** Copy segment k's file bytes to its runtime address, unless it is executed in place. */
  method CopySeg(mem: array<byte>, p: Place, f: seq<byte>, k: nat)
    requires Sound(p, |f|, mem.Length) && k < |p.ls| && PlacedTo(mem[..], p, f, k)
    modifies mem
    ensures SegAt(mem[..], p, f, p.ls[k], true)
    ensures AgreeOutside(old(mem[..]), mem[..], p.reg, p.Loadmap())
    ensures forall j :: 0 <= j < |p.ls| && j != k && (j < k || !p.ls[j].Exec()) ==> SegAt(mem[..], p, f, p.ls[j], j < k)
  {
    hide Word, EntryOk;
    var h := p.ls[k];
    SegInside(p, |f|, mem.Length, k);
    ghost var m := mem[..];
    if !h.Exec() || p.copy {
      var d := p.Addr(h);
      Copy(mem, d, p.img + h.off, h.filesz);
      Copied(m, mem[..], p, f, k);
      hide Sound, AgreeOutside, SegAt;
      forall j | 0 <= j < |p.ls| && j != k && (j < k || !p.ls[j].Exec()) ensures SegAt(mem[..], p, f, p.ls[j], j < k) {
        if p.ls[j].memsz > 0 && h.memsz > 0 { SegsApart(p, |f|, mem.Length, j, k); }
        SegFrame(m, mem[..], p, f, p.ls[j], j < k, d, d + h.filesz);
      }
    } else {
      InPlace(m, p, f, k);
    }
  }

  lemma InPlace(m: seq<byte>, p: Place, f: seq<byte>, k: nat)
    requires k < |p.ls| && Sound(p, |f|, |m|) && p.ls[k].Exec() && !p.copy && m[p.img..p.img + |f|] == f
    ensures SegAt(m, p, f, p.ls[k], true)
  {
    var h := p.ls[k];
    assert SegFits(p, h, |f|);
    forall a | p.Addr(h) <= a < p.Addr(h) + h.memsz ensures m[a] == SegByte(f, h, a - p.Addr(h)) {
      assert m[p.img..p.img + |f|][a - p.img] == m[a];
    }
  }

  /** A byte copied from the image is a byte of the file. */
  lemma ThreeSlices(m: seq<byte>, n: seq<byte>, f: seq<byte>, img: nat, off: nat, a: nat, len: nat, d: nat)
    requires img + |f| <= |m| && m[img..img + |f|] == f && off + len <= |f| && a + len <= |n|
    requires n[a..a + len] == m[img + off..img + off + len] && d < len
    ensures n[a + d] == f[off + d]
  {
    assert n[a + d] == n[a..a + len][d];
    assert m[img + off..img + off + len][d] == m[img + off + d];
    assert m[img..img + |f|][off + d] == m[img + off + d];
  }

  lemma Copied(m: seq<byte>, n: seq<byte>, p: Place, f: seq<byte>, k: nat)
    requires k < |p.ls| && Sound(p, |f|, |m|) && m[p.img..p.img + |f|] == f && |n| == |m|
    requires var h := p.ls[k]; var a := p.Addr(h);
             && (!h.Exec() || p.copy) && 0 <= a && a + h.memsz <= |m|
             && AgreeOutside(m, n, a, a + h.filesz)
             && h.filesz <= h.memsz && p.img + h.off + h.filesz <= |m|
             && n[a..a + h.filesz] == m[p.img + h.off..p.img + h.off + h.filesz]
             && (!h.Exec() ==> SegAt(m, p, f, h, false))
    ensures SegAt(n, p, f, p.ls[k], true)
  {
    var h := p.ls[k];
    var a := p.Addr(h);
    assert SegFits(p, h, |f|);
    assert h.off + h.filesz <= |f| && p.img + |f| <= |m| && (h.Exec() ==> h.filesz == h.memsz);
    hide Sound, SegFits, Mapped, Separate;
    forall x | a <= x < a + h.memsz ensures n[x] == SegByte(f, h, x - a) {
      if x - a < h.filesz { ThreeSlices(m, n, f, p.img, h.off, a, h.filesz, x - a); }
    }
  }

  /** Write loadmap entry k. */
  method StoreEntry(mem: array<byte>, p: Place, f: seq<byte>, k: nat)
    requires Sound(p, |f|, mem.Length) && k < |p.ls|
    modifies mem
    ensures EntryOk(mem[..], p, k)
    ensures AgreeOutside(old(mem[..]), mem[..], p.Loadmap() + 4 + 12 * k, p.Loadmap() + 4 + 12 * k + 12)
  {
    hide Word;
    SegInside(p, |f|, mem.Length, k);
    var e := p.Loadmap() + 4 + 12 * k;
    StoreWord(mem, e, p.Addr(p.ls[k]));
    ghost var m1 := mem[..];
    StoreWord(mem, e + 4, p.ls[k].vaddr);
    ghost var m2 := mem[..];
    StoreWord(mem, e + 8, p.ls[k].memsz);
    WordFrame(m1, m2, e);
    WordFrame(m2, mem[..], e);
    WordFrame(m2, mem[..], e + 4);
  }

  method PlaceSeg(mem: array<byte>, p: Place, f: seq<byte>, k: nat)
    requires Sound(p, |f|, mem.Length) && k < |p.ls| && PlacedTo(mem[..], p, f, k)
    modifies mem
    ensures PlacedTo(mem[..], p, f, k + 1)
    ensures AgreeOutside(old(mem[..]), mem[..], p.reg, p.LoadmapEnd())
    ensures Agree(old(mem[..]), mem[..], p.Loadmap(), p.Loadmap() + 4)
  {
    hide Word, SegAt, EntryOk;
    ghost var m0 := mem[..];
    CopySeg(mem, p, f, k);
    ghost var m1 := mem[..];
    StoreEntry(mem, p, f, k);
    ghost var n, e := mem[..], p.Loadmap() + 4 + 12 * k;
    ImageFrame(m0, n, p, f, mem.Length);
    forall j | 0 <= j < |p.ls| && (j < k + 1 || !p.ls[j].Exec()) ensures SegAt(n, p, f, p.ls[j], j < k + 1) {
      SegInside(p, |f|, mem.Length, j);
      SegFrame(m1, n, p, f, p.ls[j], j < k + 1, e, e + 12);
    }
    forall j | 0 <= j < k ensures EntryOk(n, p, j) {
      EntryFrame(m0, m1, p, j, p.reg, p.Loadmap());
      EntryFrame(m1, n, p, j, e, e + 12);
    }
  }

  /** memset of the text half and of the RW block. */
  method ClearBlocks(mem: array<byte>, p: Place, fileSize: nat)
    requires Sound(p, fileSize, mem.Length)
    modifies mem
    ensures AgreeOutside(old(mem[..]), mem[..], p.reg, p.Loadmap())
    ensures forall a :: p.Base() <= a < p.Base() + p.l.rwSpan ==> mem[a] == 0
  {
    hide Separate, SegFits;
    if p.copy {
      Zero(mem, p.reg, p.l.textReserved);
    }
    if p.l.rwSpan > 0 {
      Zero(mem, p.Base(), p.l.rwSpan);
    }
  }

  lemma Cleared(m: seq<byte>, p: Place, f: seq<byte>)
    requires Sound(p, |f|, |m|) && m[p.img..p.img + |f|] == f
    requires forall a :: p.Base() <= a < p.Base() + p.l.rwSpan ==> m[a] == 0
    ensures PlacedTo(m, p, f, 0)
  {
    hide Word, EntryOk;
    forall k | 0 <= k < |p.ls| && !p.ls[k].Exec() ensures SegAt(m, p, f, p.ls[k], false) {
      SegInside(p, |f|, |m|, k);
      assert SegFits(p, p.ls[k], |f|);
    }
  }

  /** Clear the region and start the loadmap with its version and segment count. */
  method Clear(mem: array<byte>, p: Place, f: seq<byte>)
    requires Sound(p, |f|, mem.Length) && mem[p.img..p.img + |f|] == f && |p.ls| < 0x1_0000
    modifies mem
    ensures PlacedTo(mem[..], p, f, 0)
    ensures AgreeOutside(old(mem[..]), mem[..], p.reg, p.LoadmapEnd())
    ensures HeadOk(mem[..], p)
  {
    LoadmapInside(p, |f|, mem.Length);
    ghost var m := mem[..];
    ClearBlocks(mem, p, |f|);
    assert Mapped(p, |f|, mem.Length) && p.l.rwSpan <= p.l.rwAligned;
    hide Sound, PlacedTo;
    var lm := p.Loadmap();
    mem[lm], mem[lm + 1] := 0, 0;
    mem[lm + 2], mem[lm + 3] := |p.ls| % 0x100, |p.ls| / 0x100;
    ImageFrame(m, mem[..], p, f, mem.Length);
    Cleared(mem[..], p, f);
  }

  /** The loadmap header: version 0 and the segment count. */
  ghost predicate HeadOk(m: seq<byte>, p: Place) {
    p.Loadmap() + 4 <= |m| && Half(m, p.Loadmap()) == 0 && Half(m, p.Loadmap() + 2) == |p.ls|
  }

  lemma HeadFrame(m: seq<byte>, n: seq<byte>, p: Place)
    requires HeadOk(m, p) && Agree(m, n, p.Loadmap(), p.Loadmap() + 4)
    ensures HeadOk(n, p)
  {
  }

  /** Pass 2 of lxp_loader_load_fdpic over the program headers. */
  method PlaceImage(mem: array<byte>, p: Place, f: seq<byte>)
    requires Sound(p, |f|, mem.Length) && mem[p.img..p.img + |f|] == f
    requires TableFits(f, p.l.table) && p.ls == Loads(f, p.l.table, p.l.table.num)
    modifies mem
    ensures PlacedTo(mem[..], p, f, |p.ls|) && HeadOk(mem[..], p)
    ensures AgreeOutside(old(mem[..]), mem[..], p.reg, p.LoadmapEnd())
  {
    hide Word, PlacedTo, Sound, TableFits, HeadOk;
    var t := p.l.table;
    LoadsCount(f, t, t.num);
    Clear(mem, p, f);
    var i, si := 0, 0;
    while i < t.num
      invariant 0 <= i <= t.num && si == |Loads(f, t, i)| <= |p.ls|
      invariant PlacedTo(mem[..], p, f, si) && HeadOk(mem[..], p)
      invariant AgreeOutside(old(mem[..]), mem[..], p.reg, p.LoadmapEnd())
    {
      LoadsPrefix(f, t, i + 1, t.num);
      if PhAt(f, t, i).kind == PT_LOAD {
        ghost var m := mem[..];
        PlaceSeg(mem, p, f, si);
        HeadFrame(m, mem[..], p);
        si := si + 1;
      }
      i := i + 1;
    }
  }

  lemma LoadmapInside(p: Place, fileSize: nat, top: nat)
    requires Sound(p, fileSize, top)
    ensures p.Loadmap() + 4 <= p.LoadmapEnd() <= p.reg + p.size <= top
  {
  }

  lemma {:induction false} LoadsCount(f: seq<byte>, t: Table, n: nat)
    requires TableFits(f, t) && n <= t.num
    ensures |Loads(f, t, n)| <= n
  {
    if n > 0 { LoadsCount(f, t, n - 1); }
  }
}
