/** Which files are accepted, said of the bytes and of the program headers taken together instead of
    one after the other. */
module ElfLaws {
  import opened Bytes
  import opened Elf
  import opened Loadmap

  // ---- the ELF header ------------------------------------------------------------------------

  predicate ArmBytes(f: seq<byte>) {
    && |f| >= 52 && f[0] == 0x7f && f[1] == 0x45 && f[2] == 0x4c && f[3] == 0x46 && f[4] == 1
    && f[16] == 3 && f[17] == 0 && f[18] == 40 && f[19] == 0
  }

  /** A 32-bit ELF file of type ET_DYN for ARM that says it is FDPIC, in e_ident or in bit 28 of
      e_flags, and that does not ask for the hard-float calls, bit 10, unless they are there. */
  predicate HeaderBytes(f: seq<byte>, fpu: bool) {
    && ArmBytes(f)
    && (f[7] == 65 || f[39] / 16 % 2 == 1)
    && (fpu || f[37] / 4 % 2 == 0)
  }

  lemma FlagBits(b0: byte, b1: byte, b2: byte, b3: byte)
    ensures var w: int := b0 + 0x100 * b1 + 0x1_0000 * b2 + 0x100_0000 * b3;
            w / 0x1000_0000 % 2 == b3 / 16 % 2 && w / 0x400 % 2 == b1 / 4 % 2
  {
    var x0: int, x1: int, x2: int, x3: int := b0, b1, b2, b3;
    var w := x0 + 0x100 * x1 + 0x1_0000 * x2 + 0x100_0000 * x3;
    var q3, r3 := x3 / 16, x3 % 16;
    DivUnique(w, 0x1000_0000, q3, x0 + 0x100 * x1 + 0x1_0000 * x2 + 0x100_0000 * r3);
    var q1, r1 := x1 / 4, x1 % 4;
    DivUnique(w, 0x400, q1 + 0x40 * x2 + 0x4000 * x3, x0 + 0x100 * r1);
    var h := 0x20 * x2 + 0x2000 * x3;
    assert q1 + 0x40 * x2 + 0x4000 * x3 == q1 + 2 * h;
    DivUnique(q1 + 2 * h, 2, q1 / 2 + h, q1 % 2);
  }

  lemma HeaderIff(f: seq<byte>, fpu: bool)
    ensures HeaderCheck(f, fpu).None? <==> HeaderBytes(f, fpu)
    ensures HeaderCheck(f, fpu).Some? ==>
              HeaderCheck(f, fpu).value == if ArmBytes(f) then NotSupported else InvalidParam
  {
    if |f| >= 52 { FlagBits(f[36], f[37], f[38], f[39]); }
  }

  // ---- the program headers -----------------------------------------------------------------------

  /** Every PT_LOAD lies in the file and below 2^32, and executable ones have no zero-filled tail. */
  ghost predicate SegmentsOk(f: seq<byte>, t: Table, n: nat)
    requires TableFits(f, t) && n <= t.num
  {
    forall i :: 0 <= i < n ==>
      var p := PhAt(f, t, i);
      p.kind == 1 ==> && p.filesz <= p.memsz && p.off + p.filesz <= |f| && p.vaddr + p.memsz <= 0xFFFF_FFFF
                      && (p.flags % 2 == 1 ==> p.filesz == p.memsz)
  }

  lemma {:induction false} ScanIff(f: seq<byte>, t: Table, n: nat)
    requires TableFits(f, t) && n <= t.num
    ensures ScanTo(f, t, n).Some? <==> SegmentsOk(f, t, n)
  {
    hide Word, PhAt, TableFits;
    if n > 0 { ScanIff(f, t, n - 1); }
  }

  /** i is the last of the first n headers of this kind, or -1 if there is none. */
  ghost predicate LastKind(f: seq<byte>, t: Table, n: nat, kind: int, i: int)
    requires TableFits(f, t) && n <= t.num
  {
    && -1 <= i < n && (i >= 0 ==> PhAt(f, t, i).kind == kind)
    && forall j :: i < j < n ==> PhAt(f, t, j).kind != kind
  }

  /** RW bounds: the least address and the greatest end of the segments that are not executable. */
  ghost predicate Bounds(ls: seq<Phdr>, lo: int, hi: int) {
    && (forall k :: 0 <= k < |ls| && !ls[k].Exec() ==> lo <= ls[k].vaddr && ls[k].vaddr + ls[k].memsz <= hi)
    && (lo == 0xFFFF_FFFF || exists k :: 0 <= k < |ls| && !ls[k].Exec() && ls[k].vaddr == lo)
    && (hi == 0 || exists k :: 0 <= k < |ls| && !ls[k].Exec() && ls[k].vaddr + ls[k].memsz == hi)
  }

  lemma NoBounds()
    ensures Bounds([], 0xFFFF_FFFF, 0)
  {
  }

  lemma BoundsStep(ls: seq<Phdr>, p: Phdr, lo: int, hi: int)
    requires Bounds(ls, lo, hi)
    ensures p.Exec() ==> Bounds(ls + [p], lo, hi)
    ensures !p.Exec() ==> Bounds(ls + [p], if p.vaddr < lo then p.vaddr else lo,
                                 if p.vaddr + p.memsz > hi then p.vaddr + p.memsz else hi)
  {
    var ms := ls + [p];
    assert ms[|ls|] == p && forall k :: 0 <= k < |ls| ==> ms[k] == ls[k];
    if lo != 0xFFFF_FFFF {
      var k :| 0 <= k < |ls| && !ls[k].Exec() && ls[k].vaddr == lo;
      assert ms[k].vaddr == lo;
    }
    if hi != 0 {
      var k :| 0 <= k < |ls| && !ls[k].Exec() && ls[k].vaddr + ls[k].memsz == hi;
      assert ms[k].vaddr + ms[k].memsz == hi;
    }
  }

  /** What one pass over the headers collects: the RW bounds, and the address and size of the last
      PT_DYNAMIC and of the last PT_INTERP. */
  lemma {:induction false} ScanMeaning(f: seq<byte>, t: Table, n: nat) returns (d: int, x: int)
    requires TableFits(f, t) && n <= t.num && ScanTo(f, t, n).Some?
    ensures LastKind(f, t, n, 2, d) && LastKind(f, t, n, 3, x)
    ensures var s := ScanTo(f, t, n).value;
            && Bounds(Loads(f, t, n), s.rwLo, s.rwHi)
            && (if d < 0 then s.dynV == s.dynSz == 0
                else s.dynV == PhAt(f, t, d).vaddr && s.dynSz == PhAt(f, t, d).memsz)
            && (if x < 0 then s.interpOff == s.interpSz == 0
                else s.interpOff == PhAt(f, t, x).off && s.interpSz == PhAt(f, t, x).filesz)
  {
    hide Word, PhAt, TableFits, Bounds, SegOk;
    if n == 0 {
      NoBounds();
      d, x := -1, -1;
    } else {
      d, x := ScanMeaning(f, t, n - 1);
      var s, p := ScanTo(f, t, n - 1).value, PhAt(f, t, n - 1);
      if p.kind == PT_DYNAMIC { d := n - 1; }
      if p.kind == PT_INTERP { x := n - 1; }
      BoundsStep(Loads(f, t, n - 1), p, s.rwLo, s.rwHi);
    }
  }

  // ---- room ------------------------------------------------------------------------------------------

  function Pow2(k: nat): nat { if k == 0 then 1 else 2 * Pow2(k - 1) }

  lemma {:induction false} IsPowerIff(n: nat)
    ensures IsPower(n) <==> exists k: nat :: Pow2(k) == n
    decreases n
  {
    if IsPower(n) {
      if n == 1 {
        assert Pow2(0) == 1;
      } else {
        IsPowerIff(n / 2);
        var k: nat :| Pow2(k) == n / 2;
        assert Pow2(k + 1) == n;
      }
    }
    if exists k: nat :: Pow2(k) == n {
      var k: nat :| Pow2(k) == n;
      PowerIs(k);
    }
  }

  lemma {:induction false} PowerIs(k: nat)
    ensures IsPower(Pow2(k)) && Pow2(k) >= 1
  {
    if k > 0 { PowerIs(k - 1); }
  }

  /** Text can be copied exactly into a region that is a power of two of at least 64 bytes, and only if
      it fits the lower half, which it then has to itself. */
  lemma TextHalfIff(textSz: nat, region: nat)
    ensures TextHalf(textSz, region) != 0 <==>
            region >= 64 && (exists k: nat :: Pow2(k) == region) && textSz <= region / 2
    ensures TextHalf(textSz, region) in {0, region / 2}
  {
    IsPowerIff(region);
  }

  lemma {:induction false} FileRangeIff(ls: seq<Phdr>, size: nat, v: uint32, need: uint32)
    ensures FileRange(ls, size, v, need).Some? <==>
            exists k :: 0 <= k < |ls| && ls[k].vaddr <= v && v - ls[k].vaddr + need <= ls[k].filesz
                        && ls[k].off + (v - ls[k].vaddr) + need <= size
  {
    if ls != [] {
      FileRangeIff(ls[1..], size, v, need);
      assert forall k :: 0 <= k < |ls| - 1 ==> ls[1..][k] == ls[k + 1];
      if exists k :: 0 <= k < |ls| && ls[k].vaddr <= v && v - ls[k].vaddr + need <= ls[k].filesz
                     && ls[k].off + (v - ls[k].vaddr) + need <= size {
        var k :| 0 <= k < |ls| && ls[k].vaddr <= v && v - ls[k].vaddr + need <= ls[k].filesz
                 && ls[k].off + (v - ls[k].vaddr) + need <= size;
        assert k == 0 || ls[1..][k - 1] == ls[k];
      }
    }
  }

  /** Half the region for copied text, then the RW data up to a word and the loadmap, and after them,
      from the next multiple of eight, the descriptors. */
  predicate Fits(s: Scan, region: nat, copy: bool, descs: nat) {
    && (copy ==> TextHalf(s.textSz, region) != 0)
    && (if copy then region / 2 else 0) + Up8(Up4(RwSpan(s)) + 4 + 12 * s.nload) + 8 * descs <= region
  }

  predicate DataFits(s: Scan, region: nat, copy: bool) {
    && (copy ==> TextHalf(s.textSz, region) != 0)
    && (if copy then region / 2 else 0) + Up4(RwSpan(s)) + 4 + 12 * s.nload <= region
  }

  /** An interpreter name of at most 256 bytes that lies in the file and ends in NUL, if there is one. */
  predicate NameOk(f: seq<byte>, s: Scan) {
    s.interpSz == 0
    || (s.interpSz <= 256 && s.interpOff + s.interpSz <= |f| && f[s.interpOff + s.interpSz - 1] == 0)
  }

  /** No dynamic table, or one inside the RW data whose bytes one segment has in the file. */
  ghost predicate TableBacked(f: seq<byte>, ls: seq<Phdr>, s: Scan) {
    s.dynV == 0
    || (s.rwLo != 0xFFFF_FFFF && s.rwLo <= s.dynV && s.dynV + s.dynSz <= s.rwHi
        && exists k :: 0 <= k < |ls| && ls[k].vaddr <= s.dynV && s.dynV - ls[k].vaddr + s.dynSz <= ls[k].filesz
                       && ls[k].off + (s.dynV - ls[k].vaddr) + s.dynSz <= |f|)
  }

  lemma {:induction false} FileRangeEnds(ls: seq<Phdr>, size: nat, v: uint32, need: uint32)
    ensures FileRange(ls, size, v, need).Some? ==> FileRange(ls, size, v, need).value + need <= size
  {
    if ls != [] { FileRangeEnds(ls[1..], size, v, need); }
  }

  lemma DynBytesIff(f: seq<byte>, ls: seq<Phdr>, s: Scan)
    ensures DynBytes(f, ls, s).Some? <==> TableBacked(f, ls, s)
  {
    FileRangeIff(ls, |f|, s.dynV, s.dynSz);
    FileRangeEnds(ls, |f|, s.dynV, s.dynSz);
  }

  lemma FinishIs(f: seq<byte>, t: Table, s: Scan, ls: seq<Phdr>, region: nat, copy: bool)
    requires |f| >= 52 && (s.haveText ==> s.nload > 0)
    ensures var r := Finish(f, t, s, ls, region, copy);
            if !s.haveText || !NameOk(f, s) then r == Reject(InvalidParam)
            else if !DataFits(s, region, copy) then r == Reject(NoMemory)
            else if DynBytes(f, ls, s).None? then r == Reject(InvalidParam)
            else
              var d := DynFrom(DynBytes(f, ls, s).value, 0, DYN0);
              if d.relSz != 0 && d.relEnt < 8 then r == Reject(InvalidParam)
              else if !Fits(s, region, copy, MaxFd(d)) then r == Reject(NoMemory) else r.Accept?
  {
    hide Word, DynBytes, DynFrom;
  }

  /** Which files are accepted and what the others are told. Not an ARM executable: invalid. Not FDPIC or
      not an ABI this build runs: not supported. Segments, text or interpreter name amiss: invalid. RW
      data and loadmap too large for the region: no memory. Dynamic table not backed, or a relocation
      stride below eight: invalid. Descriptors too many for the region: no memory. */
  lemma Verdict(f: seq<byte>, region: nat, copy: bool, fpu: bool)
    ensures var r := ParseSpec(f, region, copy, fpu);
            if !ArmBytes(f) then r == Reject(InvalidParam)
            else if !HeaderBytes(f, fpu) then r == Reject(NotSupported)
            else if !TableFits(f, TableOf(f)) || !SegmentsOk(f, TableOf(f), TableOf(f).num)
            then r == Reject(InvalidParam)
            else
              var t, ls := TableOf(f), Loads(f, TableOf(f), TableOf(f).num);
              && ScanTo(f, t, t.num).Some?
              && var s := ScanTo(f, t, t.num).value;
              if !(exists k :: 0 <= k < |ls| && ls[k].Exec()) || !NameOk(f, s) then r == Reject(InvalidParam)
              else if !DataFits(s, region, copy) then r == Reject(NoMemory)
              else if !TableBacked(f, ls, s) then r == Reject(InvalidParam)
              else
                && DynBytes(f, ls, s).Some?
                && var d := DynFrom(DynBytes(f, ls, s).value, 0, DYN0);
                if d.relSz != 0 && d.relEnt < 8 then r == Reject(InvalidParam)
                else if !Fits(s, region, copy, MaxFd(d)) then r == Reject(NoMemory) else r.Accept?
  {
    hide Word, HeaderCheck, ScanTo, Loads, TableFits, DynBytes, DynFrom, SegmentsOk, HeaderBytes, ArmBytes, TableOf,
        Finish, Fits, DataFits, NameOk, TableBacked;
    HeaderIff(f, fpu);
    HeaderLong(f, fpu);
    if HeaderCheck(f, fpu).None? && TableFits(f, TableOf(f)) {
      var t := TableOf(f);
      ScanIff(f, t, t.num);
      if ScanTo(f, t, t.num).Some? {
        ScanSound(f, t, t.num);
        DynBytesIff(f, Loads(f, t, t.num), ScanTo(f, t, t.num).value);
        FinishIs(f, t, ScanTo(f, t, t.num).value, Loads(f, t, t.num), region, copy);
      }
    }
  }

  lemma HeaderLong(f: seq<byte>, fpu: bool)
    ensures ArmBytes(f) ==> |f| >= 52
    ensures HeaderBytes(f, fpu) ==> ArmBytes(f)
  {
  }
}
