/** Loading an FDPIC image: parse, place, decode the dynamic table through the loadmap, relocate. */
module Loader {
  import opened Bytes
  import opened Elf
  import opened Fdpic
  import opened Loadmap
  import opened Reloc
  import opened RelocWalk

  /** What the launcher is told about a loaded program. */
  datatype Prog = Prog(region: nat, regionUsed: nat, textBase: nat, textSize: nat, textMap: nat, entry: nat,
                       loadmap: nat, dynamic: nat, got: nat, isDynamic: bool)

  /** Spins stands for a relocation loop whose cursor never advances. */
  datatype Outcome = Loaded(prog: Prog) | Failed(code: Code) | Spins

  // ---- when the relocation loop ends --------------------------------------------------------

  /** The loop test after k turns. */
  predicate Guard(relSz: nat, relEnt: nat, k: nat) { k * relEnt + relEnt <= relSz }

  /** With a zero stride the test never fails; with any other stride it fails. */
  lemma LoopEndsIff(relSz: nat, relEnt: nat)
    ensures (exists k: nat :: !Guard(relSz, relEnt, k)) <==> relEnt != 0
  {
    if relEnt != 0 {
      assert (relSz + 1) * relEnt >= relSz + 1;
      assert !Guard(relSz, relEnt, relSz + 1);
    }
  }

  /** The dynamic table of an accepted file. */
  function DynOf(f: seq<byte>): Dyn
    requires |f| >= 52 && TableFits(f, TableOf(f))
  {
    var t := TableOf(f);
    var s := ScanTo(f, t, t.num);
    if s.None? then DYN0
    else if DynBytes(f, Loads(f, t, t.num), s.value).None? then DYN0
    else FileDyn(f, Loads(f, t, t.num), s.value)
  }

  /** Some PT_LOAD contains or ends at v. */
  predicate Touches(ls: seq<Phdr>, v: nat) {
    exists k :: 0 <= k < |ls| && ls[k].vaddr <= v <= ls[k].vaddr + ls[k].memsz
  }

  /** The file makes the loader spin: a static program with DT_RELENT 0 and a mapped DT_REL. */
  predicate FileSpins(f: seq<byte>, isInterp: bool)
    requires |f| >= 52 && TableFits(f, TableOf(f))
  {
    var d := DynOf(f);
    !isInterp && !d.needed && d.relEnt == 0 && Touches(Loads(f, TableOf(f), TableOf(f).num), d.rel)
  }

  // ---- geometry of the region -----------------------------------------------------------------

  /** What an accepted parse says about the dynamic table and the room for descriptors. */
  lemma AcceptedDyn(f: seq<byte>, size: nat, copy: bool, fpu: bool)
    requires ParseSpec(f, size, copy, fpu).Accept?
    ensures |f| >= 52 && TableFits(f, TableOf(f))
    ensures var l, t := ParseSpec(f, size, copy, fpu).layout, TableOf(f);
            && l.table == t && ScanTo(f, t, t.num).Some?
            && (var s := ScanTo(f, t, t.num).value;
                && l.dynVaddr == s.dynV && l.dynSize == s.dynSz
                && DynBytes(f, Loads(f, t, t.num), s).Some?)
            && (DynOf(f).relSz != 0 ==> DynOf(f).relEnt >= 8)
            && l.textReserved + Up8(l.rwAligned + l.loadmapSize) + MaxFd(DynOf(f)) * 8 <= size
  {
    hide Word, ScanTo, Loads, TableFits, DynFrom, InterpOk, ParseSpec, DynBytes, TextHalf;
    AcceptedScan(f, size, copy, fpu);
  }

  /** Text copy, RW block, loadmap and descriptor pool follow one another inside the region. */
  lemma RegionLayout(f: seq<byte>, img: nat, reg: nat, size: nat, copy: bool, fpu: bool, top: nat)
    requires ParseSpec(f, size, copy, fpu).Accept?
    requires TableFits(f, TableOf(f)) && Separate(Loads(f, TableOf(f), TableOf(f).num))
    requires ParseSpec(f, size, copy, fpu).layout.table == TableOf(f)
    requires Mapped(PlaceOf(f, ParseSpec(f, size, copy, fpu).layout, img, reg, size, copy), |f|, top)
    ensures var p := PlaceOf(f, ParseSpec(f, size, copy, fpu).layout, img, reg, size, copy);
            && (forall k :: 0 <= k < |p.ls| && p.ls[k].Exec() && copy ==>
                p.Addr(p.ls[k]) == reg && reg + p.ls[k].memsz <= p.Base())
            && (forall k :: 0 <= k < |p.ls| && !p.ls[k].Exec() ==>
                p.Base() <= p.Addr(p.ls[k]) && p.Addr(p.ls[k]) + p.ls[k].memsz <= p.Loadmap())
            && p.Loadmap() + 4 + 12 * |p.ls| == p.LoadmapEnd() <= p.Pool()
            && p.Pool() + 8 * MaxFd(DynOf(f)) <= reg + size
  {
    hide Word, ScanTo, Loads, TableFits, DynFrom, InterpOk, ParseSpec, DynBytes, TextHalf, Separate;
    ParseSound(f, img, reg, size, copy, fpu, top);
    AcceptedDyn(f, size, copy, fpu);
    var p := PlaceOf(f, ParseSpec(f, size, copy, fpu).layout, img, reg, size, copy);
    forall k | 0 <= k < |p.ls|
      ensures p.ls[k].Exec() && copy ==> p.Addr(p.ls[k]) == reg && reg + p.ls[k].memsz <= p.Base()
      ensures !p.ls[k].Exec() ==> p.Base() <= p.Addr(p.ls[k]) && p.Addr(p.ls[k]) + p.ls[k].memsz <= p.Loadmap()
    {
      SegInside(p, |f|, top, k);
    }
  }

  lemma {:induction false} TouchesIff(es: seq<Entry>, v: nat)
    requires v <= UINT32_MAX && forall k :: 0 <= k < |es| ==> es[k].addr > 0
    ensures RtN(es, v, 0) != 0 <==> exists k :: 0 <= k < |es| && es[k].pv <= v <= es[k].pv + es[k].msz
  {
    if es != [] {
      var e, rest := es[0], es[1..];
      assert forall k :: 0 <= k < |rest| ==> rest[k] == es[k + 1];
      TouchesIff(rest, v);
      if !(e.pv <= v <= e.pv + e.msz) && exists k :: 0 <= k < |es| && es[k].pv <= v <= es[k].pv + es[k].msz {
        var k :| 0 <= k < |es| && es[k].pv <= v <= es[k].pv + es[k].msz;
        assert rest[k - 1] == es[k];
      }
    }
  }

  // ---- the context of the walk ----------------------------------------------------------------

  function CtxOf(p: Place, es: seq<Entry>, d: Dyn): Ctx {
    var got := Rt(es, d.pltgot);
    Ctx(es, p.Loadmap(), RtN(es, d.rel, d.relSz), d.relSz, d.relEnt, d.symtab, if got < TWO32 then got else 0, p.Pool())
  }

  /** The conditions of the walk follow from a sound placement and the parse's room check. */
  lemma WalkReady(m: seq<byte>, p: Place, f: seq<byte>, d: Dyn)
    requires Sound(p, |f|, |m|) && PlacedTo(m, p, f, |p.ls|)
    requires d.relEnt >= 8 && RtN(EntriesOf(p, |f|, |m|), d.rel, d.relSz) != 0
    requires p.Pool() + 8 * MaxFd(d) <= p.reg + p.size
    ensures var c := CtxOf(p, EntriesOf(p, |f|, |m|), d);
            Good(c, |m|) && MapStored(m, c) && PoolApart(m, c) && c.got == Rt(c.es, d.pltgot) && c.Count() == MaxFd(d)
  {
    hide Word, SegFits, SegAt, EntryOk, Rt, Separate;
    var es := EntriesOf(p, |f|, |m|);
    EntriesDisjoint(p, |f|, |m|);
    StoredEntries(m, p, f);
    forall k | 0 <= k < |es|
      ensures 0 < es[k].addr && es[k].addr + es[k].msz <= |m|
      ensures es[k].addr + es[k].msz <= p.Loadmap() || p.Pool() + 8 * MaxFd(d) <= es[k].addr
    {
      SegInside(p, |f|, |m|, k);
    }
    RtBound(es, d.pltgot, |m|);
    var j := RtNInside(es, d.rel, d.relSz);
  }

  // ---- loading ----------------------------------------------------------------------------------

  /** The dynamic-table loop of the loader, over the loaded copy. */
  method ReadDyn(mem: array<byte>, dp: nat, size: nat) returns (d: Dyn)
    requires dp + size <= mem.Length
    ensures d == DynFrom(mem[dp..dp + size], 0, DYN0)
  {
    hide Word, LoadWord;
    ghost var b := mem[dp..dp + size];
    var o := 0;
    d := DYN0;
    while o + 8 <= size
      invariant 0 <= o && DynFrom(b, o, d) == DynFrom(b, 0, DYN0)
    {
      WordSlice(mem[..], dp, size, o);
      WordSlice(mem[..], dp, size, o + 4);
      var tag, val := LoadWord(mem, dp + o), LoadWord(mem, dp + o + 4);
      if tag == DT_NULL {
        return;
      }
      d := DynTag(d, tag, val);
      o := o + 8;
    }
  }

  lemma WordSlice(m: seq<byte>, a: nat, n: nat, o: nat)
    requires a + n <= |m| && o + 4 <= n
    ensures Word(m[a..a + n], o) == Word(m, a + o)
  {
  }

  /** Decode the dynamic table through the loadmap in memory. */
  method LoadedDyn(mem: array<byte>, p: Place, f: seq<byte>) returns (d: Dyn)
    requires Sound(p, |f|, mem.Length) && PlacedTo(mem[..], p, f, |p.ls|)
    ensures d == MemDyn(mem[..], EntriesOf(p, |f|, mem.Length), p.l.dynVaddr, p.l.dynSize)
  {
    StoredEntries(mem[..], p, f);
    var c := Ctx(EntriesOf(p, |f|, mem.Length), p.Loadmap(), 0, 0, 0, 0, 0, 0);
    hide Word, Sound, PlacedTo, EntriesOf;
    d := DYN0;
    if p.l.dynVaddr != 0 {
      var dp := ResolveN(mem, c, p.l.dynVaddr, p.l.dynSize);
      if dp != 0 && dp + p.l.dynSize <= mem.Length {
        d := ReadDyn(mem, dp, p.l.dynSize);
      }
    }
  }

  /** What relocation leaves, from the placed memory m to n. */
  ghost predicate Relocated(m: seq<byte>, n: seq<byte>, c: Ctx, used: nat)
    requires Good(c, |m|)
  {
    && |n| == |m| && used <= 8 * c.Count() && Confined(m, n, c, used) && MapStored(n, c)
    && (Clean(m, c) ==> Kept(m, n, c, used) && forall k :: Hits(m, c, k) ==> Done(m, n, c, k, used))
  }

  /** The executable segment lies at base and is size bytes long. */
  ghost predicate TextAt(p: Place, base: nat, size: nat) {
    forall k :: 0 <= k < |p.ls| && p.ls[k].Exec() ==> p.Addr(p.ls[k]) == base && p.ls[k].memsz == size
  }

  /** The address the program record gives for the text. */
  function TextBase(p: Place): nat { if p.copy then p.reg else p.img + p.l.textOff }

  /** The offset and size on record are those of the one executable segment. */
  lemma TextKnown(f: seq<byte>, p: Place, fpu: bool, top: nat)
    requires ParseSpec(f, p.size, p.copy, fpu) == Accept(p.l)
    requires |f| >= 52 && TableFits(f, TableOf(f)) && p.l.table == TableOf(f)
    requires p == PlaceOf(f, p.l, p.img, p.reg, p.size, p.copy) && Sound(p, |f|, top)
    ensures TextAt(p, TextBase(p), p.l.textSize)
  {
    hide Word, HeaderCheck, ScanTo, Loads, TableFits, DynBytes, DynFrom, InterpOk;
    ScanSound(f, TableOf(f), TableOf(f).num);
    forall k | 0 <= k < |p.ls| && p.ls[k].Exec()
      ensures p.Addr(p.ls[k]) == TextBase(p) && p.ls[k].memsz == p.l.textSize
    {
      OneExec(p.ls, k);
    }
  }

  /** Everything the loader promises about the program it loaded. */
  ghost predicate LoadedOk(before: seq<byte>, placed: seq<byte>, after: seq<byte>, p: Place, f: seq<byte>,
                           isInterp: bool, prog: Prog)
    requires |f| >= 52 && TableFits(f, TableOf(f)) && Sound(p, |f|, |placed|)
  {
    var es, d := EntriesOf(p, |f|, |placed|), DynOf(f);
    && PlacedTo(placed, p, f, |p.ls|) && HeadOk(placed, p) && AgreeOutside(before, placed, p.reg, p.LoadmapEnd())
    && prog.region == p.Base() && prog.loadmap == p.Loadmap() && prog.isDynamic == d.needed
    && prog.entry == Rt(es, p.l.entry) && prog.got == Rt(es, d.pltgot)
    && prog.dynamic == (if p.l.dynVaddr == 0 then 0 else Rt(es, p.l.dynVaddr))
    && prog.textMap == p.l.textReserved && TextAt(p, prog.textBase, prog.textSize)
    && p.reg + prog.regionUsed <= p.reg + p.size
    && (if isInterp || d.needed || d.relSz == 0 || RtN(es, d.rel, d.relSz) == 0
        then after == placed && p.reg + prog.regionUsed == p.Pool()
        else Good(CtxOf(p, es, d), |placed|)
             && prog.regionUsed >= p.Pool() - p.reg
             && Relocated(placed, after, CtxOf(p, es, d), prog.regionUsed - (p.Pool() - p.reg)))
  }

  /** The relocation step: pool bytes used, or a loop that cannot end. */
  method Relocate(mem: array<byte>, p: Place, f: seq<byte>, d: Dyn, isInterp: bool) returns (used: nat, spins: bool)
    requires Sound(p, |f|, mem.Length) && PlacedTo(mem[..], p, f, |p.ls|)
    requires (d.relSz != 0 ==> d.relEnt >= 8) && p.Pool() + 8 * MaxFd(d) <= p.reg + p.size
    modifies mem
    ensures used <= 8 * MaxFd(d)
    ensures spins ==
        (!isInterp && !d.needed && d.relEnt == 0 && RtN(EntriesOf(p, |f|, mem.Length), d.rel, d.relSz) != 0)
    ensures var es := EntriesOf(p, |f|, mem.Length);
            if spins || isInterp || d.needed || d.relSz == 0 || RtN(es, d.rel, d.relSz) == 0
            then mem[..] == old(mem[..]) && used == 0
            else Good(CtxOf(p, es, d), mem.Length) && Relocated(old(mem[..]), mem[..], CtxOf(p, es, d), used)
  {
    StoredEntries(mem[..], p, f);
    var c := CtxOf(p, EntriesOf(p, |f|, mem.Length), d);
    used, spins := 0, false;
    assert MapStored(mem[..], c);
    var rel0 := ResolveN(mem, c, d.rel, d.relSz);
    if !isInterp && !d.needed && rel0 != 0 {
      if d.relEnt == 0 {
        spins := true;
      } else if d.relSz > 0 {
        WalkReady(mem[..], p, f, d);
        hide Word, Sound, PlacedTo, EntriesOf, Good, MapStored, Confined, Clean, Done, PoolApart, Where, Kept,
            Hits;
        used := Walk(mem, c);
      }
    }
  }

  /** Place the segments, then decode the dynamic table from the loaded copy. */
  method PlaceAndRead(mem: array<byte>, p: Place, f: seq<byte>, ghost fpu: bool) returns (d: Dyn)
    requires ParseSpec(f, p.size, p.copy, fpu) == Accept(p.l)
    requires |f| >= 52 && TableFits(f, TableOf(f)) && p.l.table == TableOf(f)
    requires p == PlaceOf(f, p.l, p.img, p.reg, p.size, p.copy) && Sound(p, |f|, mem.Length)
    requires mem[p.img..p.img + |f|] == f
    modifies mem
    ensures d == DynOf(f) && (d.relSz != 0 ==> d.relEnt >= 8) && p.Pool() + 8 * MaxFd(d) <= p.reg + p.size
    ensures PlacedTo(mem[..], p, f, |p.ls|) && HeadOk(mem[..], p)
    ensures AgreeOutside(old(mem[..]), mem[..], p.reg, p.LoadmapEnd())
  {
    hide ParseSpec, Sound, Loads, TableFits, PlacedTo, EntriesOf, Word, HeadOk, DynOf, MemDyn, AgreeOutside, MaxFd,
        Up8, ScanTo, DynBytes, TableOf;
    AcceptedDyn(f, p.size, p.copy, fpu);
    PlaceImage(mem, p, f);
    d := LoadedDyn(mem, p, f);
    DynOfMem(mem[..], p, f);
  }

  /** Relocate the placed image and fill in the program record. */
  method Launch(mem: array<byte>, p: Place, f: seq<byte>, d: Dyn, isInterp: bool) returns (r: Outcome)
    requires |f| >= 52 && TableFits(f, TableOf(f)) && p.ls == Loads(f, TableOf(f), TableOf(f).num)
    requires Sound(p, |f|, mem.Length) && PlacedTo(mem[..], p, f, |p.ls|) && HeadOk(mem[..], p)
    requires d == DynOf(f) && (d.relSz != 0 ==> d.relEnt >= 8) && p.Pool() + 8 * MaxFd(d) <= p.reg + p.size
    requires TextAt(p, TextBase(p), p.l.textSize)
    modifies mem
    ensures !r.Failed? && (r.Spins? <==> FileSpins(f, isInterp))
    ensures r.Loaded? ==> LoadedOk(old(mem[..]), old(mem[..]), mem[..], p, f, isInterp, r.prog)
  {
    hide ParseSpec, Sound, Loads, TableFits, PlacedTo, EntriesOf, Word, HeadOk, Good, Relocated, FileSpins, DynOf,
        MaxFd, Up8, TableOf, Rt, RtN, TextAt;
    ghost var placed := mem[..];
    StoredEntries(placed, p, f);
    SpinsIff(placed, p, f, isInterp);
    var c := CtxOf(p, EntriesOf(p, |f|, mem.Length), d);
    var entry := Resolve(mem, c, p.l.entry);
    var got := Resolve(mem, c, d.pltgot);
    var dynamic := Resolve(mem, c, p.l.dynVaddr);
    var used, spins := Relocate(mem, p, f, d, isInterp);
    if spins {
      r := Spins;
    } else {
      r := Loaded(Prog(p.Base(), p.Pool() - p.reg + used, TextBase(p), p.l.textSize, p.l.textReserved,
                       entry, p.Loadmap(), if p.l.dynVaddr == 0 then 0 else dynamic, got, d.needed));
    }
  }

  /** Everything after the parse accepted the file. */
  method LoadAccepted(mem: array<byte>, p: Place, f: seq<byte>, isInterp: bool, ghost fpu: bool)
    returns (r: Outcome, ghost placed: seq<byte>)
    requires ParseSpec(f, p.size, p.copy, fpu) == Accept(p.l)
    requires |f| >= 52 && TableFits(f, TableOf(f)) && p.l.table == TableOf(f)
    requires p == PlaceOf(f, p.l, p.img, p.reg, p.size, p.copy) && Sound(p, |f|, mem.Length)
    requires mem[p.img..p.img + |f|] == f
    modifies mem
    ensures !r.Failed? && (r.Spins? <==> FileSpins(f, isInterp))
    ensures |placed| == mem.Length && Sound(p, |f|, |placed|)
    ensures r.Loaded? ==> LoadedOk(old(mem[..]), placed, mem[..], p, f, isInterp, r.prog)
  {
    hide ParseSpec, Sound, Loads, TableFits, PlacedTo, EntriesOf, Word, HeadOk, Good, Relocated, FileSpins, DynOf,
        AgreeOutside, TextAt;
    var d := PlaceAndRead(mem, p, f, fpu);
    placed := mem[..];
    if d.relSz != 0 && d.relEnt < 8 {
      return Failed(InvalidParam), placed;
    }
    if p.Pool() + MaxFd(d) * 8 > p.reg + p.size {
      return Failed(NoMemory), placed;
    }
    TextKnown(f, p, fpu, mem.Length);
    r := Launch(mem, p, f, d, isInterp);
  }

  lemma DynOfMem(m: seq<byte>, p: Place, f: seq<byte>)
    requires |f| >= 52 && TableFits(f, TableOf(f)) && p.l.table == TableOf(f)
        && p.ls == Loads(f, TableOf(f), TableOf(f).num)
    requires Sound(p, |f|, |m|) && PlacedTo(m, p, f, |p.ls|)
    requires ScanTo(f, TableOf(f), TableOf(f).num).Some?
    requires var s := ScanTo(f, TableOf(f), TableOf(f).num).value;
             p.l.dynVaddr == s.dynV && p.l.dynSize == s.dynSz && DynBytes(f, p.ls, s).Some?
    ensures MemDyn(m, EntriesOf(p, |f|, |m|), p.l.dynVaddr, p.l.dynSize) == DynOf(f)
  {
    DynAgrees(m, p, f, ScanTo(f, TableOf(f), TableOf(f).num).value);
  }

  lemma SpinsIff(m: seq<byte>, p: Place, f: seq<byte>, isInterp: bool)
    requires |f| >= 52 && TableFits(f, TableOf(f)) && p.ls == Loads(f, TableOf(f), TableOf(f).num)
    requires Sound(p, |f|, |m|) && (DynOf(f).relSz != 0 ==> DynOf(f).relEnt >= 8)
    ensures FileSpins(f, isInterp) <==>
            var d := DynOf(f);
            !isInterp && !d.needed && d.relEnt == 0 && RtN(EntriesOf(p, |f|, |m|), d.rel, d.relSz) != 0
  {
    hide Word, Loads, TableFits, DynOf;
    var es, d := EntriesOf(p, |f|, |m|), DynOf(f);
    forall k | 0 <= k < |es| ensures es[k].addr > 0 && es[k].pv == p.ls[k].vaddr && es[k].msz == p.ls[k].memsz {
      SegInside(p, |f|, |m|, k);
    }
    TouchesIff(es, d.rel);
  }

  /** lxp_loader_load_fdpic. `placed` is the memory between placement and relocation. */
  method LoadFdpic(mem: array<byte>, img: nat, fileSize: nat, reg: nat, size: nat, isInterp: bool, copy: bool,
                   fpu: bool)
    returns (r: Outcome, ghost placed: seq<byte>)
    requires 0 < img && img + fileSize <= mem.Length && 0 < reg && reg + size <= mem.Length < TWO32
    requires fileSize < TWO31 && size < TWO31 // the 32-bit loop test of the walk does not wrap
    requires img + fileSize <= reg || reg + size <= img
    requires var f := mem[img..img + fileSize];
             ParseSpec(f, size, copy, fpu).Accept? ==>
               |f| >= 52 && TableFits(f, TableOf(f)) && Separate(Loads(f, TableOf(f), TableOf(f).num))
    modifies mem
    ensures var f := old(mem[img..img + fileSize]);
            match ParseSpec(f, size, copy, fpu)
            case Reject(code) => r == Failed(code) && mem[..] == old(mem[..])
            case Accept(l) =>
              && |f| >= 52 && TableFits(f, TableOf(f)) && l.table == TableOf(f)
              && !r.Failed? && (r.Spins? <==> FileSpins(f, isInterp))
              && |placed| == mem.Length && Sound(PlaceOf(f, l, img, reg, size, copy), |f|, |placed|)
              && (r.Loaded? ==>
                  LoadedOk(old(mem[..]), placed, mem[..], PlaceOf(f, l, img, reg, size, copy), f, isInterp, r.prog))
  {
    hide ParseSpec, Sound, TableFits, Loads, Separate, LoadedOk, FileSpins, EntriesOf, Word;
    var f := mem[img..img + fileSize];
    placed := mem[..];
    var parsed := ParseLayout(f, size, copy, fpu);
    if parsed.Reject? {
      return Failed(parsed.code), placed;
    }
    AcceptedDyn(f, size, copy, fpu);
    ParseSound(f, img, reg, size, copy, fpu, mem.Length);
    r, placed := LoadAccepted(mem, PlaceOf(f, parsed.layout, img, reg, size, copy), f, isInterp, fpu);
  }

  // ---- what relocation means -----------------------------------------------------------------------

  /** A relocation whose offset lies in segment s is applied if and only if eight bytes of the segment
      follow it, whatever its own width. */
  lemma AppliedIff(m: seq<byte>, c: Ctx, k: nat, s: nat)
    requires Good(c, |m|) && k < c.Count() && s < |c.es| && Covers(c.es[s], At(m, c, k).off)
    ensures Hits(m, c, k) <==> At(m, c, k).off + 8 <= c.es[s].pv + c.es[s].msz
    ensures Rt(c.es, At(m, c, k).off) == c.es[s].addr + (At(m, c, k).off - c.es[s].pv)
  {
    hide Word, At, Rt;
    var off := At(m, c, k).off;
    RtAt(c.es, s, off);
    if off + 8 <= c.es[s].pv + c.es[s].msz { RtNAt(c.es, s, off, 8); }
    if Hits(m, c, k) {
      var t := RtNInside(c.es, off, 8);
      OneSegment(c.es, s, t, off);
    }
  }

  lemma OneSegment(es: seq<Entry>, s: nat, t: nat, v: nat)
    requires Disjoint(es) && s < |es| && t < |es| && Covers(es[s], v) && Covers(es[t], v)
    ensures s == t
  {
  }

  /** A word no relocation writes keeps its value. */
  lemma WordKept(m: seq<byte>, n: seq<byte>, c: Ctx, used: nat, a: nat)
    requires Good(c, |m|) && Clean(m, c) && Relocated(m, n, c, used) && a + 4 <= |m|
    requires a + 4 <= c.pool || c.pool + 8 * c.Count() <= a
    requires forall b :: a <= b < a + 4 ==> !Target(m, c, b)
    ensures Word(n, a) == Word(m, a)
  {
    hide Word, Good, Clean, Confined, MapStored, Target;
    WordFrame(m, n, a);
  }

  /** A RELATIVE or ABS32 relocation inside segment s: its word ends as the loadmap translation of its
      link-time value if and only if eight bytes of the segment follow its offset. The code asks for
      eight whatever the kind, so a word in the last bytes of a segment is passed over and keeps the
      link-time value, unless another relocation writes it. */
  lemma WordMeaningIff(m: seq<byte>, n: seq<byte>, c: Ctx, used: nat, k: nat, s: nat)
    requires Good(c, |m|) && Clean(m, c) && Relocated(m, n, c, used)
    requires k < c.Count() && At(m, c, k).kind in {R_RELATIVE, R_ABS32}
    requires s < |c.es| && c.es[s].pv <= At(m, c, k).off && At(m, c, k).off + 4 <= c.es[s].pv + c.es[s].msz
    ensures Rt(c.es, At(m, c, k).off) + 4 <= |m|
    ensures var a, whole := Rt(c.es, At(m, c, k).off), At(m, c, k).off + 8 <= c.es[s].pv + c.es[s].msz;
            var alone := forall b :: a <= b < a + 4 ==> !Target(m, c, b);
            && (whole ==> Word(n, a) == Rt(c.es, Word(m, a)))
            && (!whole && alone ==> Word(n, a) == Word(m, a))
            && ((whole || alone) && Rt(c.es, Word(m, a)) != Word(m, a) ==>
                (Word(n, a) == Rt(c.es, Word(m, a)) <==> whole))
  {
    AppliedIff(m, c, k, s);
    var a := Rt(c.es, At(m, c, k).off);
    assert a + 4 <= c.es[s].addr + c.es[s].msz <= |m| && (a + 4 <= c.lm || c.pool + 8 * c.Count() <= a);
    PoolRoom(c, |m|);
    hide Word, Good, Rt, RtN, Clean, Confined, MapStored, Target, At;
    if Hits(m, c, k) {
      ShareTarget(m, c, k);
      assert Done(m, n, c, k, used);
    } else if forall b :: a <= b < a + 4 ==> !Target(m, c, b) {
      WordKept(m, n, c, used, a);
    }
  }

  /** After a clean walk every RELATIVE and ABS32 word that is applied is the loadmap translation of the
      link-time value it held, and every FUNCDESC_VALUE slot is a pair or, for an undefined symbol,
      null. */
  lemma RelocatedWord(m: seq<byte>, n: seq<byte>, c: Ctx, used: nat, k: nat)
    requires Good(c, |m|) && Clean(m, c) && Relocated(m, n, c, used) && Hits(m, c, k)
    ensures Where(m, c, k) + 8 <= |n|
    ensures At(m, c, k).kind in {R_RELATIVE, R_ABS32} ==>
              Word(n, Where(m, c, k)) == Rt(c.es, Word(m, Where(m, c, k)))
    ensures At(m, c, k).kind == R_FUNCDESC_VALUE && Defined(m, c, At(m, c, k).sym) ==>
              Word(n, Where(m, c, k)) == Rt(c.es, ValueOf(m, c, At(m, c, k).sym, Where(m, c, k)))
              && Word(n, Where(m, c, k) + 4) == c.got
    ensures At(m, c, k).kind == R_FUNCDESC_VALUE && !Defined(m, c, At(m, c, k).sym) ==>
              Word(n, Where(m, c, k)) == 0 && Word(n, Where(m, c, k) + 4) == 0
    ensures At(m, c, k).kind == R_FUNCDESC && !Defined(m, c, At(m, c, k).sym) ==> Word(n, Where(m, c, k)) == 0
  {
    hide Word, Good, Rt, RtN, Defined, ValueOf, AddendOf, SymAt, Clean, Confined, MapStored;
    Patches(c, |m|, At(m, c, k).off);
    assert Done(m, n, c, k, used);
  }

  /** The function a descriptor slot's pair must name: the value of the FUNCDESC_VALUE relocation
      that shares the descriptor, or the symbol's value plus the addend in the slot. */
  ghost function PairTarget(m: seq<byte>, c: Ctx, sym: nat, w: nat): int
    requires Good(c, |m|) && Defined(m, c, sym) && w + 4 <= |m|
  {
    var p := MatchFrom(m, c, sym, 0);
    if Shares(m, c, sym) && Where(m, c, p) + 4 <= |m| then ValueOf(m, c, sym, Where(m, c, p))
    else AddendOf(m, c, sym, w)
  }

  /** The FUNCDESC_VALUE slot that descriptors of this symbol share, if there is one, is applied. */
  predicate SharedWhole(m: seq<byte>, c: Ctx, sym: int)
    requires Good(c, |m|)
  {
    Shares(m, c, sym) ==> Hits(m, c, MatchFrom(m, c, sym, 0))
  }

  /** After a clean walk every FUNCDESC slot of a defined symbol points at a {translated function,
      GOT} pair, shared or synthesised, as long as the slot it shares is itself applied. */
  lemma FuncdescPair(m: seq<byte>, n: seq<byte>, c: Ctx, used: nat, k: nat)
    requires Good(c, |m|) && Clean(m, c) && Relocated(m, n, c, used) && Hits(m, c, k)
    requires At(m, c, k).kind == R_FUNCDESC && Defined(m, c, At(m, c, k).sym) && SharedWhole(m, c, At(m, c, k).sym)
    ensures Where(m, c, k) + 8 <= |n|
    ensures var d := Word(n, Where(m, c, k));
            && d != 0 && d + 8 <= |n| && Word(n, d + 4) == c.got
            && Word(n, d) == Rt(c.es, PairTarget(m, c, At(m, c, k).sym, Where(m, c, k)))
  {
    hide Word, Good, Rt, RtN, Defined, ValueOf, AddendOf, SymAt, Clean, Confined, MapStored;
    assert Done(m, n, c, k, used);
    Patches(c, |m|, At(m, c, k).off);
    PoolRoom(c, |m|);
    var p := MatchFrom(m, c, At(m, c, k).sym, 0);
    if Shares(m, c, At(m, c, k).sym) {
      assert Done(m, n, c, p, used);
      Patches(c, |m|, At(m, c, p).off);
      ShareTarget(m, c, p);
    }
  }

  /** When the shared slot begins in segment s, it is applied if and only if it ends there too; if it
      does not, the descriptor is handed out all the same and its words stay what they were, unless
      another relocation writes them. */
  lemma FuncdescStraddles(m: seq<byte>, n: seq<byte>, c: Ctx, used: nat, k: nat, s: nat)
    requires Good(c, |m|) && Clean(m, c) && Relocated(m, n, c, used) && Hits(m, c, k)
    requires At(m, c, k).kind == R_FUNCDESC && Defined(m, c, At(m, c, k).sym) && Shares(m, c, At(m, c, k).sym)
    requires s < |c.es| && Covers(c.es[s], At(m, c, MatchFrom(m, c, At(m, c, k).sym, 0)).off)
    ensures var off := At(m, c, MatchFrom(m, c, At(m, c, k).sym, 0)).off;
            && Where(m, c, k) + 8 <= |n|
            && (SharedWhole(m, c, At(m, c, k).sym) <==> off + 8 <= c.es[s].pv + c.es[s].msz)
            && Word(n, Where(m, c, k)) == c.es[s].addr + (off - c.es[s].pv)
            && (off + 4 <= c.es[s].pv + c.es[s].msz < off + 8 ==>
                var d := Word(n, Where(m, c, k));
                d + 4 <= |m| && ((forall b :: d <= b < d + 4 ==> !Target(m, c, b)) ==> Word(n, d) == Word(m, d)))
  {
    var p := MatchFrom(m, c, At(m, c, k).sym, 0);
    AppliedIff(m, c, p, s);
    Patches(c, |m|, At(m, c, k).off);
    PoolRoom(c, |m|);
    var d := Rt(c.es, At(m, c, p).off);
    assert c.es[s].addr + c.es[s].msz <= |m|;
    assert c.es[s].addr + c.es[s].msz <= c.lm || c.pool + 8 * c.Count() <= c.es[s].addr;
    hide Word, Good, Rt, RtN, Defined, ValueOf, AddendOf, SymAt, Clean, Confined, MapStored, Target, At, MatchFrom;
    assert Done(m, n, c, k, used);
    if d + 4 <= c.es[s].addr + c.es[s].msz && forall b :: d <= b < d + 4 ==> !Target(m, c, b) {
      WordKept(m, n, c, used, d);
    }
  }
}
