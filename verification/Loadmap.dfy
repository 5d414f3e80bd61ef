/** What the loadmap means: an accepted parse yields a sound placement, and every link-time
    address resolves to the runtime byte that holds its file contents. */
module Loadmap {
  import opened Bytes
  import opened Elf
  import opened Fdpic

  // ---- an accepted parse is sound -----------------------------------------------------

  /** What the scan of the first n headers knows about the loads among them. */
  ghost predicate ScanFacts(s: Scan, ls: seq<Phdr>, fileSize: nat) {
    && s.nload == |ls|
    && (forall k :: 0 <= k < |ls| ==> ls[k].kind == PT_LOAD && SegOk(ls[k], fileSize))
    && (forall k :: 0 <= k < |ls| && !ls[k].Exec() ==> s.rwLo <= ls[k].vaddr && ls[k].vaddr + ls[k].memsz <= s.rwHi)
    && (s.haveText <==> exists k :: 0 <= k < |ls| && ls[k].Exec())
    && (forall k :: 0 <= k < |ls| && ls[k].Exec() && (forall j :: 0 <= j < |ls| && ls[j].Exec() ==> j == k) ==>
                      s.textSz == ls[k].memsz && s.textOff == ls[k].off)
  }

  lemma StepFacts(s: Scan, ls: seq<Phdr>, p: Phdr, fileSize: nat)
    requires ScanFacts(s, ls, fileSize) && p.kind == PT_LOAD && Step(s, p, fileSize).Some?
    ensures ScanFacts(Step(s, p, fileSize).value, ls + [p], fileSize)
  {
    var t, r := Step(s, p, fileSize).value, ls + [p];
    assert r[|ls|] == p;
    assert forall k :: 0 <= k < |ls| ==> r[k] == ls[k];
    assert t.haveText <==> exists k :: 0 <= k < |r| && r[k].Exec() by {
      if s.haveText {
        var k :| 0 <= k < |ls| && ls[k].Exec();
        assert r[k].Exec();
      }
    }
    forall k | 0 <= k < |r| && r[k].Exec() && (forall j :: 0 <= j < |r| && r[j].Exec() ==> j == k)
      ensures t.textSz == r[k].memsz && t.textOff == r[k].off
    {
      if k < |ls| {
        forall j | 0 <= j < |ls| && ls[j].Exec() ensures j == k { assert r[j].Exec(); }
      }
    }
  }

  lemma {:induction false} ScanSound(f: seq<byte>, t: Table, n: nat)
    requires TableFits(f, t) && n <= t.num && ScanTo(f, t, n).Some?
    ensures ScanFacts(ScanTo(f, t, n).value, Loads(f, t, n), |f|)
  {
    hide Word, PhAt, TableFits;
    if n > 0 {
      ScanSound(f, t, n - 1);
      var s, p := ScanTo(f, t, n - 1).value, PhAt(f, t, n - 1);
      if p.kind == PT_LOAD {
        StepFacts(s, Loads(f, t, n - 1), p, |f|);
      }
    }
  }

  lemma OneExec(ls: seq<Phdr>, k: nat)
    requires Separate(ls) && k < |ls| && ls[k].Exec()
    ensures forall j :: 0 <= j < |ls| && ls[j].Exec() ==> j == k
  {
  }

  /** The load that an accepted parse describes. */
  function PlaceOf(f: seq<byte>, l: Layout, img: nat, reg: nat, size: nat, copy: bool): Place
    requires TableFits(f, l.table)
  {
    Place(img, reg, size, l, copy, Loads(f, l.table, l.table.num))
  }

  /** The scan behind an accepted parse. */
  lemma AcceptedScan(f: seq<byte>, size: nat, copy: bool, fpu: bool)
    requires ParseSpec(f, size, copy, fpu).Accept?
    ensures var l := ParseSpec(f, size, copy, fpu).layout;
            && |f| >= 52 && TableFits(f, l.table) && l.table == TableOf(f)
            && ScanTo(f, l.table, l.table.num).Some?
            && ParseSpec(f, size, copy, fpu) ==
               Finish(f, l.table, ScanTo(f, l.table, l.table.num).value, Loads(f, l.table, l.table.num), size, copy)
  {
    hide Word, ScanTo, Loads, TableFits, DynFrom, DynBytes, InterpOk;
  }

  lemma SpanOf(s: Scan, ls: seq<Phdr>, fileSize: nat, k: nat)
    requires ScanFacts(s, ls, fileSize) && k < |ls| && !ls[k].Exec()
    ensures s.rwLo <= ls[k].vaddr && ls[k].vaddr + ls[k].memsz <= s.rwLo + RwSpan(s)
  {
  }

  /** An accepted image with separate segments, in any disjoint file and region, is sound. */
  lemma ParseSound(f: seq<byte>, img: nat, reg: nat, size: nat, copy: bool, fpu: bool, top: nat)
    requires ParseSpec(f, size, copy, fpu).Accept?
    requires TableFits(f, TableOf(f)) && Separate(Loads(f, TableOf(f), TableOf(f).num))
    requires ParseSpec(f, size, copy, fpu).layout.table == TableOf(f)
    requires Mapped(PlaceOf(f, ParseSpec(f, size, copy, fpu).layout, img, reg, size, copy), |f|, top)
    ensures Sound(PlaceOf(f, ParseSpec(f, size, copy, fpu).layout, img, reg, size, copy), |f|, top)
  {
    hide Word, ScanTo, Loads, TableFits, DynFrom, DynBytes, InterpOk, ParseSpec;
    var l := ParseSpec(f, size, copy, fpu).layout;
    AcceptedScan(f, size, copy, fpu);
    var t := l.table;
    var s, p := ScanTo(f, t, t.num).value, PlaceOf(f, l, img, reg, size, copy);
    ScanSound(f, t, t.num);
    forall k | 0 <= k < |p.ls| ensures SegFits(p, p.ls[k], |f|) {
      if p.ls[k].Exec() {
        OneExec(p.ls, k);
      } else {
        SpanOf(s, p.ls, |f|, k);
      }
    }
  }

  // ---- resolution ------------------------------------------------------------------------

  function EntriesOf(p: Place, fileSize: nat, top: nat): (r: seq<Entry>)
    requires Sound(p, fileSize, top)
    ensures |r| == |p.ls|
  {
    seq(|p.ls|, k requires 0 <= k < |p.ls| =>
      SegInside(p, fileSize, top, k); Entry(p.Addr(p.ls[k]), p.ls[k].vaddr, p.ls[k].memsz))
  }

  lemma StoredEntries(m: seq<byte>, p: Place, f: seq<byte>)
    requires Sound(p, |f|, |m|) && PlacedTo(m, p, f, |p.ls|)
    ensures p.Loadmap() + 4 + 12 * |p.ls| <= |m|
    ensures Entries(m, p.Loadmap(), |p.ls|) == EntriesOf(p, |f|, |m|)
  {
    hide Word, SegAt, SegFits, Separate;
    forall k | 0 <= k < |p.ls| ensures EntryIn(m, p.Loadmap(), k) == EntriesOf(p, |f|, |m|)[k] {
      assert EntryOk(m, p, k);
    }
  }

  predicate Covers(e: Entry, v: nat) { e.pv <= v < e.pv + e.msz }

  ghost predicate Disjoint(es: seq<Entry>) {
    forall j, k, v :: 0 <= j < k < |es| ==> !(Covers(es[j], v) && Covers(es[k], v))
  }

  lemma EntriesDisjoint(p: Place, fileSize: nat, top: nat)
    requires Sound(p, fileSize, top)
    ensures Disjoint(EntriesOf(p, fileSize, top))
  {
    var es := EntriesOf(p, fileSize, top);
    forall j, k, v | 0 <= j < k < |es| ensures !(Covers(es[j], v) && Covers(es[k], v)) {
      assert ApartSegs(p.ls[j], p.ls[k]);
    }
  }

  /** With disjoint segments the search order does not matter. */
  lemma {:induction false} RtAt(es: seq<Entry>, k: nat, v: nat)
    requires Disjoint(es) && k < |es| && Covers(es[k], v)
    ensures Rt(es, v) == es[k].addr + (v - es[k].pv)
  {
    if k > 0 {
      assert !Covers(es[0], v);
      TailDisjoint(es);
      RtAt(es[1..], k - 1, v);
    }
  }

  lemma {:induction false} RtNAt(es: seq<Entry>, k: nat, v: nat, need: nat)
    requires Disjoint(es) && k < |es| && 0 < need && es[k].pv <= v && v + need <= es[k].pv + es[k].msz
        && v <= UINT32_MAX
    ensures RtN(es, v, need) == es[k].addr + (v - es[k].pv)
  {
    if k > 0 {
      assert Covers(es[k], v) && !Covers(es[0], v);
      TailDisjoint(es);
      RtNAt(es[1..], k - 1, v, need);
    }
  }

  lemma TailDisjoint(es: seq<Entry>)
    requires Disjoint(es) && es != []
    ensures Disjoint(es[1..])
  {
    forall j, k, v | 0 <= j < k < |es| - 1 ensures !(Covers(es[1..][j], v) && Covers(es[1..][k], v)) {
      assert es[1..][j] == es[j + 1] && es[1..][k] == es[k + 1];
    }
  }

  /** Whatever fdpic_rt_n answers lies inside one segment. */
  lemma {:induction false} RtNInside(es: seq<Entry>, v: nat, need: nat) returns (k: nat)
    requires RtN(es, v, need) != 0
    ensures k < |es| && es[k].pv <= v && v + need <= es[k].pv + es[k].msz
        && RtN(es, v, need) == es[k].addr + (v - es[k].pv)
  {
    if es[0].pv <= v && v + need <= es[0].pv + es[0].msz {
      k := 0;
    } else {
      k := RtNInside(es[1..], v, need);
      k := k + 1;
    }
  }

  /** fdpic_rt and fdpic_rt_n agree where both are defined. */
  lemma RtOfRtN(es: seq<Entry>, v: nat, need: nat)
    requires Disjoint(es) && 0 < need && RtN(es, v, need) != 0
    ensures Rt(es, v) == RtN(es, v, need)
  {
    var k := RtNInside(es, v, need);
    RtAt(es, k, v);
  }

  lemma {:induction false} RtUnmapped(es: seq<Entry>, v: nat)
    requires forall k :: 0 <= k < |es| ==> !Covers(es[k], v)
    ensures Rt(es, v) == 0
  {
    if es != [] {
      assert !Covers(es[0], v);
      assert forall k :: 0 <= k < |es| - 1 ==> es[1..][k] == es[k + 1];
      RtUnmapped(es[1..], v);
    }
  }

  /** Right after placement: the byte at fdpic_rt(v) is the file byte of v, or zero in a bss tail;
      an address in no segment is unmapped. */
  lemma PlacementMeaning(m: seq<byte>, p: Place, f: seq<byte>, v: nat)
    requires Sound(p, |f|, |m|) && PlacedTo(m, p, f, |p.ls|)
    ensures var es := EntriesOf(p, |f|, |m|);
            && (forall k :: 0 <= k < |p.ls| && p.ls[k].vaddr <= v < p.ls[k].vaddr + p.ls[k].memsz ==>
                              p.ls[k].off + p.ls[k].filesz <= |f| && 0 < Rt(es, v) < |m|
                              && m[Rt(es, v)] == SegByte(f, p.ls[k], v - p.ls[k].vaddr))
            && ((forall k :: 0 <= k < |p.ls| ==> !(p.ls[k].vaddr <= v < p.ls[k].vaddr + p.ls[k].memsz)) ==>
                Rt(es, v) == 0)
  {
    hide Word, EntryOk, Separate, SegFits;
    var es := EntriesOf(p, |f|, |m|);
    EntriesDisjoint(p, |f|, |m|);
    forall k | 0 <= k < |p.ls| && p.ls[k].vaddr <= v < p.ls[k].vaddr + p.ls[k].memsz
      ensures p.ls[k].off + p.ls[k].filesz <= |f| && 0 < Rt(es, v) < |m|
          && m[Rt(es, v)] == SegByte(f, p.ls[k], v - p.ls[k].vaddr)
    {
      SegInside(p, |f|, |m|, k);
      assert Covers(es[k], v);
      RtAt(es, k, v);
      assert SegAt(m, p, f, p.ls[k], true);
    }
    if forall k :: 0 <= k < |p.ls| ==> !(p.ls[k].vaddr <= v < p.ls[k].vaddr + p.ls[k].memsz) {
      forall k | 0 <= k < |es| ensures !Covers(es[k], v) {}
      RtUnmapped(es, v);
    }
  }

  // ---- the dynamic table survives loading ----------------------------------------------------

  lemma {:induction false} FileRangeInside(ls: seq<Phdr>, size: nat, v: uint32, need: uint32) returns (k: nat)
    requires FileRange(ls, size, v, need).Some?
    ensures k < |ls| && ls[k].vaddr <= v && v - ls[k].vaddr + need <= ls[k].filesz
    ensures FileRange(ls, size, v, need) == Some(ls[k].off + (v - ls[k].vaddr))
  {
    var h := ls[0];
    if v >= h.vaddr && v - h.vaddr + need <= h.filesz && h.off + (v - h.vaddr) + need <= size {
      k := 0;
    } else {
      k := FileRangeInside(ls[1..], size, v, need);
      k := k + 1;
    }
  }

  /** Bytes of one segment's file range read the same in the file and at the runtime address. */
  lemma RangeCopied(m: seq<byte>, p: Place, f: seq<byte>, k: nat, v: uint32, need: uint32)
    requires Sound(p, |f|, |m|) && PlacedTo(m, p, f, |p.ls|) && k < |p.ls| && 0 < need
    requires p.ls[k].vaddr <= v && v - p.ls[k].vaddr + need <= p.ls[k].filesz
    ensures var a, o := RtN(EntriesOf(p, |f|, |m|), v, need), p.ls[k].off + (v - p.ls[k].vaddr);
            && a != 0 && a + need <= |m| && o + need <= |f| && m[a..a + need] == f[o..o + need]
  {
    hide Word, EntryOk, Separate, SegAt;
    var es, h := EntriesOf(p, |f|, |m|), p.ls[k];
    EntriesDisjoint(p, |f|, |m|);
    SegInside(p, |f|, |m|, k);
    assert SegFits(p, h, |f|);
    RtNAt(es, k, v, need);
    assert SegAt(m, p, f, h, true);
    SegSlice(m, p, f, h, v - h.vaddr, need);
  }

  lemma SegSlice(m: seq<byte>, p: Place, f: seq<byte>, h: Phdr, d: nat, need: nat)
    requires SegAt(m, p, f, h, true) && h.filesz <= h.memsz && d + need <= h.filesz
    ensures m[p.Addr(h) + d..p.Addr(h) + d + need] == f[h.off + d..h.off + d + need]
  {
    var a, b := m[p.Addr(h) + d..p.Addr(h) + d + need], f[h.off + d..h.off + d + need];
    forall i | 0 <= i < need ensures a[i] == b[i] {
      var x := p.Addr(h) + d + i;
      assert a[i] == m[x] && m[x] == SegByte(f, h, x - p.Addr(h));
    }
  }

  /** The dynamic table the parse decoded from the file. */
  function FileDyn(f: seq<byte>, ls: seq<Phdr>, s: Scan): Dyn
    requires DynBytes(f, ls, s).Some?
  {
    DynFrom(DynBytes(f, ls, s).value, 0, DYN0)
  }

  /** The table the loader decodes through the loadmap. */
  function MemDyn(m: seq<byte>, es: seq<Entry>, dynV: uint32, dynSz: uint32): Dyn {
    var a := RtN(es, dynV, dynSz);
    if dynV == 0 || a == 0 || a + dynSz > |m| then DYN0 else DynFrom(m[a..a + dynSz], 0, DYN0)
  }

  /** Loading never changes what the dynamic table says. */
  lemma DynAgrees(m: seq<byte>, p: Place, f: seq<byte>, s: Scan)
    requires Sound(p, |f|, |m|) && PlacedTo(m, p, f, |p.ls|) && DynBytes(f, p.ls, s).Some?
    ensures MemDyn(m, EntriesOf(p, |f|, |m|), s.dynV, s.dynSz) == FileDyn(f, p.ls, s)
  {
    hide Word, Sound, PlacedTo;
    if s.dynV != 0 {
      var k := FileRangeInside(p.ls, |f|, s.dynV, s.dynSz);
      if s.dynSz > 0 {
        RangeCopied(m, p, f, k, s.dynV, s.dynSz);
      }
    }
  }
}
