/** Three small images: one that is accepted and never finishes loading, one that loads with a word
    left unrelocated, and one whose descriptors are worked out word by word. */
module Images {
  import opened Bytes
  import opened Elf
  import opened Fdpic
  import opened Loadmap
  import opened Reloc
  import opened RelocWalk
  import opened Loader
  import opened Slots

  // ---- the headers they share --------------------------------------------------------------------

  /** The first 148 bytes: entry point 0x1000, a 4-byte text segment there, an RW segment of n file bytes
      and z bytes in all at 0x2000 that begins with a dynamic table of d bytes. */
  function HeadByte(i: nat, n: byte, z: byte, d: byte): byte {
    if i < 52 then
      if i == 0 then 0x7f else if i == 1 then 0x45 else if i == 2 then 0x4c else if i == 3 then 0x46
      else if i == 4 then 1 else if i == 7 then 65 else if i == 16 then 3 else if i == 18 then 40
      else if i == 25 then 0x10 else if i == 28 then 52 else if i == 42 then 32 else if i == 44 then 3 else 0
    else if i < 84 then
      if i == 52 then 1 else if i == 61 then 0x10 else if i == 68 then 4 else if i == 72 then 4
      else if i == 76 then 1 else 0
    else if i < 116 then
      if i == 84 then 1 else if i == 88 then 148 else if i == 93 then 0x20 else if i == 100 then n
      else if i == 104 then z else if i == 108 then 6 else 0
    else
      if i == 116 then 2 else if i == 125 then 0x20 else if i == 136 then d else 0
  }

  ghost predicate Small(f: seq<byte>, n: byte, z: byte, d: byte) {
    |f| == 148 + n && 0 < d <= n <= z && forall i :: 0 <= i < 148 ==> f[i] == HeadByte(i, n, z, d)
  }

  const TABLE := Table(52, 32, 3)
  const TEXT := Phdr(1, 0, 0x1000, 4, 4, 1)
  function Data(n: byte, z: byte): Phdr { Phdr(1, 148, 0x2000, n, z, 6) }
  function Dynamic(d: byte): Phdr { Phdr(2, 0, 0x2000, 0, d, 0) }
  function Scanned(z: byte, d: byte): Scan { Scan(4, 0, 0x2000, 0x2000 + z, 0x2000, d, 0, 0, true, 2) }

  lemma SmallTable(f: seq<byte>, n: byte, z: byte, d: byte)
    requires Small(f, n, z, d)
    ensures HeaderCheck(f, false).None? && TableOf(f) == TABLE && TableFits(f, TABLE) && Word(f, 24) == 0x1000
  {
  }

  lemma SmallHeaders(f: seq<byte>, n: byte, z: byte, d: byte)
    requires Small(f, n, z, d)
    ensures TableFits(f, TABLE)
    ensures PhAt(f, TABLE, 0) == TEXT && PhAt(f, TABLE, 1) == Data(n, z) && PhAt(f, TABLE, 2) == Dynamic(d)
  {
    hide HeaderCheck, TableOf;
    SmallTable(f, n, z, d);
  }

  lemma SmallScan(f: seq<byte>, n: byte, z: byte, d: byte)
    requires Small(f, n, z, d)
    ensures TableFits(f, TABLE) && Loads(f, TABLE, 3) == [TEXT, Data(n, z)] && Separate(Loads(f, TABLE, 3))
    ensures ScanTo(f, TABLE, 3) == Some(Scanned(z, d))
  {
    hide Word, Small, HeaderCheck, PhAt, TableOf, TableFits;
    SmallSize(f, n, z, d);
    SmallHeaders(f, n, z, d);
    assert Loads(f, TABLE, 0) == [] && ScanTo(f, TABLE, 0) == Some(SCAN0);
    assert Loads(f, TABLE, 1) == [TEXT];
    assert Loads(f, TABLE, 2) == [TEXT, Data(n, z)];
    assert ScanTo(f, TABLE, 1) == Some(Scan(4, 0, UINT32_MAX, 0, 0, 0, 0, 0, true, 1));
    assert ScanTo(f, TABLE, 2) == Some(Scan(4, 0, 0x2000, 0x2000 + z, 0, 0, 0, 0, true, 2));
  }

  lemma SmallSize(f: seq<byte>, n: byte, z: byte, d: byte)
    requires Small(f, n, z, d)
    ensures |f| == 148 + n && 0 < d <= n <= z
  {
  }

  /** The dynamic table is the start of the RW segment's file bytes. */
  lemma SmallDyn(f: seq<byte>, n: byte, z: byte, d: byte)
    requires Small(f, n, z, d)
    ensures DynBytes(f, [TEXT, Data(n, z)], Scanned(z, d)) == Some(f[148..148 + d])
    ensures FileDyn(f, [TEXT, Data(n, z)], Scanned(z, d)) == DynFrom(f[148..148 + d], 0, DYN0)
  {
    hide Word, DynFrom;
    var ls := [TEXT, Data(n, z)];
    assert ls[1..] == [Data(n, z)];
    assert FileRange(ls, |f|, 0x2000, d) == Some(148);
  }

  lemma SmallFinish(f: seq<byte>, n: byte, z: byte, d: byte, dyn: Dyn)
    requires 148 + d <= |f| && 0 < d <= n <= z && Word(f, 24) == 0x1000
    requires DynBytes(f, [TEXT, Data(n, z)], Scanned(z, d)) == Some(f[148..148 + d])
    requires DynFrom(f[148..148 + d], 0, DYN0) == dyn && (dyn.relSz != 0 ==> dyn.relEnt >= 8) && MaxFd(dyn) <= 8
    ensures Finish(f, TABLE, Scanned(z, d), [TEXT, Data(n, z)], 4096, false) ==
            Accept(Layout(0x1000, TABLE, 2, 4, 0, 0x2000, z, Up4(z), 28, 0, 0x2000, d, 0, 0))
  {
    hide Word, DynBytes, DynFrom, MaxFd;
  }

  /** Validation accepts such an image for a 4 KiB region unless its relocation table is unsound. */
  lemma SmallAccepted(f: seq<byte>, n: byte, z: byte, d: byte, dyn: Dyn)
    requires Small(f, n, z, d) && DynFrom(f[148..148 + d], 0, DYN0) == dyn
    requires (dyn.relSz != 0 ==> dyn.relEnt >= 8) && MaxFd(dyn) <= 8
    ensures |f| >= 52 && TableFits(f, TableOf(f)) && TableOf(f) == TABLE
    ensures ParseSpec(f, 4096, false, false) ==
            Accept(Layout(0x1000, TABLE, 2, 4, 0, 0x2000, z, Up4(z), 28, 0, 0x2000, d, 0, 0))
    ensures Loads(f, TABLE, 3) == [TEXT, Data(n, z)] && Separate(Loads(f, TABLE, 3)) && DynOf(f) == dyn
  {
    SmallSize(f, n, z, d);
    hide Word, Small, HeaderCheck, PhAt, TableOf, TableFits, ScanTo, Loads, DynBytes, DynFrom, Finish, MaxFd, Up4,
        Separate;
    SmallTable(f, n, z, d);
    SmallScan(f, n, z, d);
    SmallDyn(f, n, z, d);
    SmallFinish(f, n, z, d, dyn);
  }

  /** The placement of such an image: text in place, the RW segment at the start of the region. */
  function SmallPlace(l: Layout, img: nat, reg: nat, n: byte, z: byte): Place {
    Place(img, reg, 4096, l, false, [TEXT, Data(n, z)])
  }

  lemma SmallPlaced(m: seq<byte>, p: Place, f: seq<byte>, n: byte, z: byte, x: nat)
    requires |f| == 148 + n && n <= z && p == SmallPlace(p.l, p.img, p.reg, n, z) && p.l.rwLo == 0x2000
    requires Sound(p, |f|, |m|) && PlacedTo(m, p, f, 2)
    requires p.Base() <= x < p.Base() + z
    ensures x < |m| && m[x] == if x < p.Base() + n then f[148 + (x - p.Base())] else 0
  {
    hide Sound, EntryOk;
    assert SegAt(m, p, f, p.ls[1], true);
    assert p.Addr(p.ls[1]) == p.Base();
    assert m[x] == SegByte(f, p.ls[1], x - p.Base());
  }

  /** The loadmap of the placed image. */
  lemma SmallEntries(p: Place, n: byte, z: byte, top: nat)
    requires p == SmallPlace(p.l, p.img, p.reg, n, z) && p.l.rwLo == 0x2000 && p.l.textReserved == 0
    requires Sound(p, 148 + n, top)
    ensures EntriesOf(p, 148 + n, top) == [Entry(p.img, 0x1000, 4), Entry(p.reg, 0x2000, z)]
    ensures p.reg + z <= top < TWO32 && p.img < TWO32
  {
    var es := EntriesOf(p, 148 + n, top);
    SegInside(p, 148 + n, top, 0);
    SegInside(p, 148 + n, top, 1);
    var want := [Entry(p.img, 0x1000, 4), Entry(p.reg, 0x2000, z)];
    assert es[0] == want[0] && es[1] == want[1];
    assert es == want;
  }

  // ---- an accepted image that never finishes loading ----------------------------------------------

  /** The RW segment is its own dynamic table: DT_REL 0x2000, DT_RELENT 0. */
  function SpinByte(i: nat): byte {
    if i < 148 then HeadByte(i, 16, 16, 16)
    else if i == 148 then 17 else if i == 153 then 0x20 else if i == 156 then 19 else 0
  }

  function SpinImage(): (f: seq<byte>)
    ensures |f| == 164 && forall i :: 0 <= i < 164 ==> f[i] == SpinByte(i)
  {
    seq(164, i requires 0 <= i < 164 => SpinByte(i))
  }

  lemma SpinDyn()
    ensures DynFrom(SpinImage()[148..164], 0, DYN0) == Dyn(0x2000, 0, 0, 0, 0, false)
  {
    var f := SpinImage();
    hide SpinImage;
    var b := f[148..164];
    assert Word(b, 0) == 17 && Word(b, 4) == 0x2000 && Word(b, 8) == 19 && Word(b, 12) == 0;
    assert DynFrom(b, 16, Dyn(0x2000, 0, 0, 0, 0, false)) == Dyn(0x2000, 0, 0, 0, 0, false);
    assert DynFrom(b, 8, Dyn(0x2000, 0, 8, 0, 0, false)) == Dyn(0x2000, 0, 0, 0, 0, false);
  }

  /** Validation accepts the image for a 4 KiB region although loading it as a program never ends. */
  lemma AcceptedButSpins()
    ensures var f := SpinImage();
            && ParseSpec(f, 4096, false, false).Accept?
            && |f| >= 52 && TableFits(f, TableOf(f)) && Separate(Loads(f, TableOf(f), TableOf(f).num))
            && FileSpins(f, false)
  {
    var f := SpinImage();
    hide SpinImage, Word, HeaderCheck, TableOf, TableFits, ScanTo, Loads, DynFrom, ParseSpec, DynOf;
    SpinDyn();
    SmallAccepted(f, 16, 16, 16, Dyn(0x2000, 0, 0, 0, 0, false));
    var ls := [TEXT, Data(16, 16)];
    assert ls[1].vaddr <= 0x2000 <= ls[1].vaddr + ls[1].memsz;
  }

  // ---- an image that loads with a word unrelocated -------------------------------------------------

  /** The RW segment [0x2000, 0x2028): DT_REL 0x2018 and DT_RELSZ 8; one R_ARM_RELATIVE for the word at
      0x2024, the last of the segment, which holds the link-time address 0x2000. */
  function TailByte(i: nat): byte {
    if i < 148 then HeadByte(i, 40, 40, 24)
    else if i == 148 then 17 else if i == 152 then 0x18 else if i == 153 then 0x20
    else if i == 156 then 18 else if i == 160 then 8
    else if i == 172 then 0x24 else if i == 173 then 0x20 else if i == 176 then 23
    else if i == 185 then 0x20 else 0
  }

  function TailImage(): (f: seq<byte>)
    ensures |f| == 188 && forall i :: 0 <= i < 188 ==> f[i] == TailByte(i)
  {
    seq(188, i requires 0 <= i < 188 => TailByte(i))
  }

  const TAIL_DYN := Dyn(0x2018, 8, 8, 0, 0, false)

  lemma TailDyn()
    ensures DynFrom(TailImage()[148..172], 0, DYN0) == TAIL_DYN
  {
    var f := TailImage();
    hide TailImage;
    var b := f[148..172];
    assert Word(b, 0) == 17 && Word(b, 4) == 0x2018 && Word(b, 8) == 18 && Word(b, 12) == 8 && Word(b, 16) == 0;
    assert DynFrom(b, 16, TAIL_DYN) == TAIL_DYN;
    assert DynFrom(b, 8, Dyn(0x2018, 0, 8, 0, 0, false)) == TAIL_DYN;
  }

  /** What the words of the relocation and of its target hold right after placement. */
  lemma TailPlaced(m: seq<byte>, p: Place)
    requires p == SmallPlace(p.l, p.img, p.reg, 40, 40) && p.l.rwLo == 0x2000
    requires Sound(p, 188, |m|) && PlacedTo(m, p, TailImage(), 2)
    ensures p.Base() + 40 <= |m|
    ensures Word(m, p.Base() + 0x18) == 0x2024 && Word(m, p.Base() + 0x1c) == 23 && Word(m, p.Base() + 0x24) == 0x2000
  {
    var f, a := TailImage(), p.Base();
    hide TailImage, Sound, EntryOk, PlacedTo;
    SegInside(p, 188, |m|, 1);
    forall x | a <= x < a + 40 ensures m[x] == TailByte(148 + (x - a)) { SmallPlaced(m, p, f, 40, 40, x); }
  }

  /** Validation accepts the image, and loading it as a program ends. */
  lemma TailAccepted()
    ensures var f := TailImage();
            && |f| >= 52 && TableFits(f, TableOf(f)) && TableOf(f) == TABLE
            && ParseSpec(f, 4096, false, false) ==
               Accept(Layout(0x1000, TABLE, 2, 4, 0, 0x2000, 40, 40, 28, 0, 0x2000, 24, 0, 0))
            && Loads(f, TABLE, 3) == [TEXT, Data(40, 40)] && Separate(Loads(f, TABLE, 3))
            && DynOf(f) == TAIL_DYN && !FileSpins(f, false)
  {
    var f := TailImage();
    hide TailImage, Word, HeaderCheck, TableOf, TableFits, ScanTo, Loads, DynFrom, ParseSpec, DynOf;
    TailDyn();
    SmallAccepted(f, 40, 40, 24, TAIL_DYN);
  }

  /** The loadmap of the placed image, and what it says of the addresses that matter. */
  lemma TailEntries(p: Place, top: nat)
    requires p == SmallPlace(p.l, p.img, p.reg, 40, 40) && p.l.rwLo == 0x2000 && p.l.textReserved == 0
    requires Sound(p, 188, top)
    ensures EntriesOf(p, 188, top) == [Entry(p.img, 0x1000, 4), Entry(p.reg, 0x2000, 40)]
    ensures var es := EntriesOf(p, 188, top);
            && Rt(es, 0x2024) == p.reg + 0x24 && Rt(es, 0x2000) == p.reg
            && RtN(es, 0x2018, 8) == p.reg + 0x18 && RtN(es, 0x2024, 4) == p.reg + 0x24 && RtN(es, 0x2024, 8) == 0
  {
    SmallEntries(p, 40, 40, top);
    var want := [Entry(p.img, 0x1000, 4), Entry(p.reg, 0x2000, 40)];
    hide Sound, EntriesOf;
    TwoSegments(want[0], want[1], 0x2024, 4);
    TwoSegments(want[0], want[1], 0x2024, 8);
    TwoSegments(want[0], want[1], 0x2018, 8);
    TwoSegments(want[0], want[1], 0x2000, 4);
  }

  lemma TwoSegments(a: Entry, b: Entry, v: nat, need: nat)
    requires v <= UINT32_MAX
    ensures RtN([a, b], v, need) == if a.pv <= v && v + need <= a.pv + a.msz then a.addr + (v - a.pv)
                                    else if b.pv <= v && v + need <= b.pv + b.msz then b.addr + (v - b.pv) else 0
    ensures Rt([a, b], v) == if Covers(a, v) then a.addr + (v - a.pv)
                             else if Covers(b, v) then b.addr + (v - b.pv) else 0
  {
    assert [a, b][1..] == [b] && [b][1..] == [];
    assert RtN([], v, need) == 0 && Rt([], v) == 0;
  }

  /** The one relocation of the image is passed over. */
  lemma TailSkipped(m: seq<byte>, n: seq<byte>, c: Ctx, used: nat, reg: nat)
    requires Good(c, |m|) && Relocated(m, n, c, used) && c.relSz == c.relEnt == 8 && c.rel0 == reg + 0x18
    requires RtN(c.es, 0x2024, 8) == 0 && reg + 40 <= c.pool
    requires Word(m, reg + 0x18) == 0x2024 && Word(m, reg + 0x1c) == 23
    ensures Word(n, reg + 0x24) == Word(m, reg + 0x24)
  {
    PoolRoom(c, |m|);
    OnlyRel(m, c, reg);
    hide Word, Good, Confined, MapStored, RtN, Rt, At, Clean, Target, Relocated;
    NoneApplied(m, c);
    WordKept(m, n, c, used, reg + 0x24);
  }

  lemma OnlyRel(m: seq<byte>, c: Ctx, reg: nat)
    requires Good(c, |m|) && c.relSz == c.relEnt == 8 && c.rel0 == reg + 0x18 && RtN(c.es, 0x2024, 8) == 0
    requires Word(m, reg + 0x18) == 0x2024 && Word(m, reg + 0x1c) == 23
    ensures c.Count() == 1 && At(m, c, 0) == Reloc(0x2024, 23, 0) && forall k :: !Hits(m, c, k)
  {
    hide Word, Good, RtN;
    assert c.Count() == 1 && c.RelAt(0) == c.rel0;
  }

  lemma NoneApplied(m: seq<byte>, c: Ctx)
    requires Good(c, |m|) && forall k :: !Hits(m, c, k)
    ensures Clean(m, c) && forall b :: !Target(m, c, b)
  {
    hide Word, Good, RtN, At;
  }

  /** What a load says of an image with a relocation table that is mapped. */
  lemma LoadedWalk(before: seq<byte>, placed: seq<byte>, after: seq<byte>, p: Place, f: seq<byte>, prog: Prog)
    requires |f| >= 52 && TableFits(f, TableOf(f)) && Sound(p, |f|, |placed|)
    requires LoadedOk(before, placed, after, p, f, false, prog) && !DynOf(f).needed && DynOf(f).relSz != 0
    requires RtN(EntriesOf(p, |f|, |placed|), DynOf(f).rel, DynOf(f).relSz) != 0
    ensures PlacedTo(placed, p, f, |p.ls|)
    ensures var c := CtxOf(p, EntriesOf(p, |f|, |placed|), DynOf(f));
            && Good(c, |placed|) && prog.regionUsed >= p.Pool() - p.reg
            && Relocated(placed, after, c, prog.regionUsed - (p.Pool() - p.reg))
  {
    hide TableFits, TableOf, Loads, DynOf, Sound, EntriesOf, Rt, RtN, Good, Relocated, PlacedTo, HeadOk, TextAt, Up8;
  }

  lemma TailLoaded(before: seq<byte>, placed: seq<byte>, after: seq<byte>, p: Place, prog: Prog)
    requires |TailImage()| >= 52 && TableFits(TailImage(), TableOf(TailImage())) && DynOf(TailImage()) == TAIL_DYN
    requires p == SmallPlace(p.l, p.img, p.reg, 40, 40) && p.l.rwLo == 0x2000 && p.l.textReserved == 0
    requires p.l.rwAligned == 40 && p.l.loadmapSize == 28
    requires Sound(p, 188, |placed|) && LoadedOk(before, placed, after, p, TailImage(), false, prog)
    ensures p.reg + 40 <= |after| && Word(after, p.reg + 0x24) == 0x2000
    ensures var es := EntriesOf(p, 188, |placed|);
            && Rt(es, 0x2024) == p.reg + 0x24 && Rt(es, 0x2000) == p.reg
            && RtN(es, 0x2024, 4) != 0 && RtN(es, 0x2024, 8) == 0
  {
    hide TailImage, Word, TableOf, TableFits, Loads, DynOf, Sound, EntriesOf, Rt, RtN, Good, Relocated, PlacedTo,
        LoadedOk;
    TailEntries(p, |placed|);
    SegInside(p, 188, |placed|, 1);
    LoadedWalk(before, placed, after, p, TailImage(), prog);
    TailPlaced(placed, p);
    assert Up8(40 + 28) == 72;
    var c := CtxOf(p, EntriesOf(p, 188, |placed|), TAIL_DYN);
    TailSkipped(placed, after, c, prog.regionUsed - (p.Pool() - p.reg), p.reg);
    SameLength(placed, after, c, prog.regionUsed - (p.Pool() - p.reg));
  }

  /** Validation accepts the image. In any load of it, wherever image and region lie, the word is
      mapped and named by a RELATIVE relocation, and ends holding the link-time address 0x2000, while
      the loadmap takes 0x2000 to the start of the RW block. */
  lemma LoadedButUnrelocated(before: seq<byte>, placed: seq<byte>, after: seq<byte>, l: Layout, img: nat, reg: nat,
                             prog: Prog)
    requires |TailImage()| >= 52 && TableFits(TailImage(), TableOf(TailImage()))
    requires ParseSpec(TailImage(), 4096, false, false) == Accept(l) && l.table == TableOf(TailImage())
    requires Sound(PlaceOf(TailImage(), l, img, reg, 4096, false), 188, |placed|)
    requires LoadedOk(before, placed, after, PlaceOf(TailImage(), l, img, reg, 4096, false), TailImage(), false, prog)
    ensures reg + 40 <= |after| && Word(after, reg + 0x24) == 0x2000
    ensures var es := EntriesOf(PlaceOf(TailImage(), l, img, reg, 4096, false), 188, |placed|);
            && Rt(es, 0x2024) == reg + 0x24 && Rt(es, 0x2000) == reg
            && RtN(es, 0x2024, 4) != 0 && RtN(es, 0x2024, 8) == 0
  {
    hide TailImage, Word, ParseSpec, TableOf, TableFits, Loads, HeaderCheck, DynOf, Sound, EntriesOf, Rt, RtN, Good,
        Relocated, PlacedTo, LoadedOk, ScanTo, FileSpins, Separate;
    TailAccepted();
    TailLoaded(before, placed, after, PlaceOf(TailImage(), l, img, reg, 4096, false), prog);
  }

  // ---- an image with descriptors --------------------------------------------------------------------

  /** The RW segment [0x2000, 0x2088), with a zero-filled tail up to 0x2090: DT_REL 0x2058, DT_RELSZ 24,
      DT_PLTGOT 0x2070, DT_SYMTAB 0x2028; at 0x2028 an undefined symbol, a local one of value 0x1000 and
      a global one of value 0x1001; at 0x2058 a FUNCDESC_VALUE of the local one for 0x2070, one of the
      global one for 0x2078, and a FUNCDESC of the global one for 0x2080. The slots at 0x2070 and 0x2078
      both hold 2. */
  function CallByte(i: nat): byte {
    if i < 148 then HeadByte(i, 136, 144, 40)
    else if i < 188 then CallDynByte(i - 148)
    else if i < 236 then
      if i == 209 then 0x10 else if i == 216 then 2 else if i == 218 then 1
      else if i == 224 then 1 else if i == 225 then 0x10 else if i == 232 then 0x12 else if i == 234 then 1 else 0
    else if i < 260 then CallRelByte(i - 236)
    else if i == 260 || i == 268 then 2 else 0
  }

  function CallDynByte(i: nat): byte {
    if i == 0 then 17 else if i == 4 then 0x58 else if i == 5 then 0x20
    else if i == 8 then 18 else if i == 12 then 24
    else if i == 16 then 3 else if i == 20 then 0x70 else if i == 21 then 0x20
    else if i == 24 then 6 else if i == 28 then 0x28 else if i == 29 then 0x20 else 0
  }

  function CallRelByte(i: nat): byte {
    if i == 0 then 0x70 else if i == 1 then 0x20 else if i == 4 then 164 else if i == 5 then 1
    else if i == 8 then 0x78 else if i == 9 then 0x20 else if i == 12 then 164 else if i == 13 then 2
    else if i == 16 then 0x80 else if i == 17 then 0x20 else if i == 20 then 163 else if i == 21 then 2 else 0
  }

  function CallImage(): (f: seq<byte>)
    ensures |f| == 284 && forall i :: 0 <= i < 284 ==> f[i] == CallByte(i)
  {
    seq(284, i requires 0 <= i < 284 => CallByte(i))
  }

  const CALL_DYN := Dyn(0x2058, 24, 8, 0x2070, 0x2028, false)

  lemma CallDyn()
    ensures DynFrom(CallImage()[148..188], 0, DYN0) == CALL_DYN
  {
    var f := CallImage();
    hide CallImage;
    var b := f[148..188];
    assert forall i :: 0 <= i < 40 ==> b[i] == CallDynByte(i);
    CallDynWords(b);
    hide Word;
    assert DynFrom(b, 32, CALL_DYN) == CALL_DYN;
    assert DynFrom(b, 24, CALL_DYN.(symtab := 0)) == CALL_DYN;
    assert DynFrom(b, 16, Dyn(0x2058, 24, 8, 0, 0, false)) == CALL_DYN;
    assert DynFrom(b, 8, Dyn(0x2058, 0, 8, 0, 0, false)) == CALL_DYN;
  }

  lemma CallDynWords(b: seq<byte>)
    requires |b| == 40 && forall i :: 0 <= i < 40 ==> b[i] == CallDynByte(i)
    ensures Word(b, 0) == 17 && Word(b, 4) == 0x2058 && Word(b, 8) == 18 && Word(b, 12) == 24
    ensures Word(b, 16) == 3 && Word(b, 20) == 0x2070 && Word(b, 24) == 6 && Word(b, 28) == 0x2028 && Word(b, 32) == 0
  {
  }

  /** Validation accepts the image, and loading it as a program ends. */
  lemma CallAccepted()
    ensures var f := CallImage();
            && |f| >= 52 && TableFits(f, TableOf(f)) && TableOf(f) == TABLE
            && ParseSpec(f, 4096, false, false) ==
               Accept(Layout(0x1000, TABLE, 2, 4, 0, 0x2000, 144, 144, 28, 0, 0x2000, 40, 0, 0))
            && Loads(f, TABLE, 3) == [TEXT, Data(136, 144)] && Separate(Loads(f, TABLE, 3))
            && DynOf(f) == CALL_DYN && !FileSpins(f, false)
  {
    var f := CallImage();
    hide CallImage, Word, HeaderCheck, TableOf, TableFits, ScanTo, Loads, DynFrom, ParseSpec, DynOf;
    CallDyn();
    SmallAccepted(f, 136, 144, 40, CALL_DYN);
  }

  /** The RW block holds the image's bytes, and the context is that of the image. */
  ghost predicate Calls(m: seq<byte>, c: Ctx, img: uint32, reg: uint32) {
    && Good(c, |m|) && c.es == [Entry(img, 0x1000, 4), Entry(reg, 0x2000, 144)]
    && c.rel0 == reg + 0x58 && c.relSz == 24 && c.relEnt == 8 && c.symV == 0x2028 && c.got == reg + 0x70
    && reg + 144 <= c.pool && reg + 144 <= |m| && forall x :: reg <= x < reg + 144 ==> m[x] == CallByte(148 + (x - reg))
  }

  lemma CallCtx(m: seq<byte>, c: Ctx, img: uint32, reg: uint32)
    requires Calls(m, c, img, reg)
    ensures Good(c, |m|) && c.es == [Entry(img, 0x1000, 4), Entry(reg, 0x2000, 144)] && c.got == reg + 0x70
    ensures c.rel0 == reg + 0x58 && c.relSz == 24 && c.relEnt == 8 && reg + 144 <= |m| && reg + 144 <= c.pool
  {
    hide Good;
  }

  lemma CallMap(es: seq<Entry>, img: uint32, reg: uint32)
    requires es == [Entry(img, 0x1000, 4), Entry(reg, 0x2000, 144)]
    ensures RtN(es, 0x2070, 8) == reg + 0x70 && RtN(es, 0x2078, 8) == reg + 0x78 && RtN(es, 0x2080, 8) == reg + 0x80
    ensures RtN(es, 0x2038, 16) == reg + 0x38 && RtN(es, 0x2048, 16) == reg + 0x48 && RtN(es, 0x2058, 24) == reg + 0x58
    ensures Rt(es, 0x1000) == img && Rt(es, 0x1001) == img + 1 && Rt(es, 0x1002) == img + 2
    ensures Rt(es, 0x2070) == reg + 0x70
  {
    hide Rt, RtN;
    TwoSegments(es[0], es[1], 0x2070, 8);
    TwoSegments(es[0], es[1], 0x2078, 8);
    TwoSegments(es[0], es[1], 0x2080, 8);
    TwoSegments(es[0], es[1], 0x2038, 16);
    TwoSegments(es[0], es[1], 0x2048, 16);
    TwoSegments(es[0], es[1], 0x2058, 24);
    TwoSegments(es[0], es[1], 0x1000, 1);
    TwoSegments(es[0], es[1], 0x1001, 1);
    TwoSegments(es[0], es[1], 0x1002, 1);
  }

  lemma CallWords(m: seq<byte>, c: Ctx, img: uint32, reg: uint32)
    requires Calls(m, c, img, reg)
    ensures Word(m, reg + 0x58) == 0x2070 && Word(m, reg + 0x60) == 0x2078 && Word(m, reg + 0x68) == 0x2080
    ensures Word(m, reg + 0x3c) == 0x1000 && Word(m, reg + 0x4c) == 0x1001
    ensures Word(m, reg + 0x70) == 2 && Word(m, reg + 0x78) == 2 && Word(m, reg + 0x88) == 0
  {
    hide Good;
  }

  lemma CallSlots(m: seq<byte>, c: Ctx, img: uint32, reg: uint32)
    requires Calls(m, c, img, reg)
    ensures c.Count() == 3 && Slot(m, c, 0, 164, 1, reg + 0x70) && Slot(m, c, 1, 164, 2, reg + 0x78)
    ensures Slot(m, c, 2, 163, 2, reg + 0x80) && !Entry8(m, c, 0, 164, 2)
    ensures SymbolAt(m, c, 1, reg + 0x38) && SymbolAt(m, c, 2, reg + 0x48)
    ensures m[reg + 0x44] < 16 && m[reg + 0x54] >= 16
  {
    CallWords(m, c, img, reg);
    CallMap(c.es, img, reg);
    assert reg > 0 by { assert c.es[1].addr > 0; }
    hide Good, Word, Rt, RtN;
  }

  lemma CallClean(m: seq<byte>, c: Ctx, img: uint32, reg: uint32)
    requires Calls(m, c, img, reg)
    ensures Clean(m, c)
  {
    CallCtx(m, c, img, reg);
    hide Good, Word, Rt, RtN, At, Slot, Entry8, SymbolAt, SymAt, Where, Calls;
    CallSlots(m, c, img, reg);
    SlotReads(m, c, 0, 164, 1, reg + 0x70);
    SlotReads(m, c, 1, 164, 2, reg + 0x78);
    SlotReads(m, c, 2, 163, 2, reg + 0x80);
    SymbolReads(m, c, 1, reg + 0x38);
    SymbolReads(m, c, 2, reg + 0x48);
    assert forall k :: Hits(m, c, k) ==> k == 0 || k == 1 || k == 2;
  }

  lemma CallTail(m: seq<byte>, c: Ctx, img: uint32, reg: uint32)
    requires Calls(m, c, img, reg)
    ensures Good(c, |m|) && forall b :: reg + 0x88 <= b < reg + 0x8c ==> !Target(m, c, b)
  {
    CallCtx(m, c, img, reg);
    hide Good, Word, Rt, RtN, At, Slot, Entry8, SymbolAt, SymAt, Where, Calls;
    CallSlots(m, c, img, reg);
    SlotReads(m, c, 0, 164, 1, reg + 0x70);
    SlotReads(m, c, 1, 164, 2, reg + 0x78);
    SlotReads(m, c, 2, 163, 2, reg + 0x80);
    assert forall k :: Hits(m, c, k) ==> k == 0 || k == 1 || k == 2;
  }

  lemma CallRelocated(m: seq<byte>, n: seq<byte>, c: Ctx, used: nat, img: uint32, reg: uint32)
    requires Calls(m, c, img, reg) && Relocated(m, n, c, used)
    ensures reg + 144 <= |n|
    ensures Word(n, reg + 0x70) == img + 2 && Word(n, reg + 0x74) == reg + 0x70
    ensures Word(n, reg + 0x78) == img + 1 && Word(n, reg + 0x7c) == reg + 0x70
    ensures Word(n, reg + 0x80) == reg + 0x78 && Word(n, reg + 0x88) == 0
  {
    hide Good, Word, Rt, RtN, At, Slot, Entry8, SymbolAt, Clean, Relocated, Calls, Ctx.Count;
    CallCtx(m, c, img, reg);
    CallWords(m, c, img, reg);
    CallSlots(m, c, img, reg);
    CallClean(m, c, img, reg);
    CallMap(c.es, img, reg);
    SameLength(m, n, c, used);
    ValueSlot(m, n, c, used, 0, 1, reg + 0x70, reg + 0x38);
    ValueSlot(m, n, c, used, 1, 2, reg + 0x78, reg + 0x48);
    SharedDescriptor(m, n, c, used, 2, 2, reg + 0x80, reg + 0x48, 1, reg + 0x78);
    CallTail(m, c, img, reg);
    WordKept(m, n, c, used, reg + 0x88);
  }

  /** The entry point and the GOT on record. */
  lemma CallRecord(before: seq<byte>, placed: seq<byte>, after: seq<byte>, p: Place, prog: Prog)
    requires |CallImage()| >= 52 && TableFits(CallImage(), TableOf(CallImage())) && DynOf(CallImage()) == CALL_DYN
    requires p == SmallPlace(p.l, p.img, p.reg, 136, 144) && p.l.rwLo == 0x2000 && p.l.textReserved == 0
    requires p.l.entry == 0x1000
    requires Sound(p, 284, |placed|) && LoadedOk(before, placed, after, p, CallImage(), false, prog)
    ensures prog.got == p.reg + 0x70 && prog.entry == p.img
  {
    hide CallImage, Word, TableOf, TableFits, Loads, DynOf, Sound, EntriesOf, Rt, RtN, Good, Relocated, PlacedTo,
        HeadOk, AgreeOutside, TextAt, CtxOf, Up8;
    SmallEntries(p, 136, 144, |placed|);
    CallMap(EntriesOf(p, 284, |placed|), p.img, p.reg);
  }

  lemma CallLoaded(before: seq<byte>, placed: seq<byte>, after: seq<byte>, p: Place, prog: Prog)
    requires |CallImage()| >= 52 && TableFits(CallImage(), TableOf(CallImage())) && DynOf(CallImage()) == CALL_DYN
    requires p == SmallPlace(p.l, p.img, p.reg, 136, 144) && p.l.rwLo == 0x2000 && p.l.textReserved == 0
    requires p.l.rwAligned == 144 && p.l.loadmapSize == 28 && p.l.entry == 0x1000
    requires Sound(p, 284, |placed|) && LoadedOk(before, placed, after, p, CallImage(), false, prog)
    ensures p.reg + 144 <= |after| && prog.got == p.reg + 0x70 && prog.entry == p.img
    ensures Word(after, p.reg + 0x70) == p.img + 2 && Word(after, p.reg + 0x74) == p.reg + 0x70
    ensures Word(after, p.reg + 0x78) == p.img + 1 && Word(after, p.reg + 0x7c) == p.reg + 0x70
    ensures Word(after, p.reg + 0x80) == p.reg + 0x78 && Word(after, p.reg + 0x88) == 0
  {
    hide CallImage, Word, TableOf, TableFits, Loads, DynOf, Sound, EntriesOf, Rt, RtN, Good, Relocated, PlacedTo,
        LoadedOk;
    SmallEntries(p, 136, 144, |placed|);
    CallMap(EntriesOf(p, 284, |placed|), p.img, p.reg);
    CallRecord(before, placed, after, p, prog);
    assert Up8(144 + 28) == 176;
    LoadedWalk(before, placed, after, p, CallImage(), prog);
    forall x | p.reg <= x < p.reg + 144 ensures placed[x] == CallByte(148 + (x - p.reg)) {
      SmallPlaced(placed, p, CallImage(), 136, 144, x);
    }
    var c := CtxOf(p, EntriesOf(p, 284, |placed|), CALL_DYN);
    PoolRoom(c, |placed|);
    assert Calls(placed, c, p.img, p.reg);
    CallRelocated(placed, after, c, prog.regionUsed - (p.Pool() - p.reg), p.img, p.reg);
  }

  /** In any load of the image, wherever image and region lie: the descriptor of the local function is
      {its value plus the 2 in the slot, GOT}, that of the global one {its value, GOT}, the FUNCDESC slot
      points at the latter, the tail is zero, and the entry point and the GOT on record are where e_entry
      and DT_PLTGOT say. */
  lemma DescriptorsLoaded(before: seq<byte>, placed: seq<byte>, after: seq<byte>, l: Layout, img: nat, reg: nat,
                          prog: Prog)
    requires |CallImage()| >= 52 && TableFits(CallImage(), TableOf(CallImage()))
    requires ParseSpec(CallImage(), 4096, false, false) == Accept(l) && l.table == TableOf(CallImage())
    requires Sound(PlaceOf(CallImage(), l, img, reg, 4096, false), 284, |placed|)
    requires LoadedOk(before, placed, after, PlaceOf(CallImage(), l, img, reg, 4096, false), CallImage(), false, prog)
    ensures reg + 144 <= |after| && prog.got == reg + 0x70 && prog.entry == img
    ensures Word(after, reg + 0x70) == img + 2 && Word(after, reg + 0x74) == reg + 0x70
    ensures Word(after, reg + 0x78) == img + 1 && Word(after, reg + 0x7c) == reg + 0x70
    ensures Word(after, reg + 0x80) == reg + 0x78 && Word(after, reg + 0x88) == 0
  {
    hide CallImage, Word, ParseSpec, TableOf, TableFits, Loads, HeaderCheck, DynOf, Sound, EntriesOf, Rt, RtN, Good,
        Relocated, PlacedTo, LoadedOk, ScanTo, FileSpins, Separate;
    CallAccepted();
    CallLoaded(before, placed, after, PlaceOf(CallImage(), l, img, reg, 4096, false), prog);
  }
}
