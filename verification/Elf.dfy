/** The shape of an acceptable FDPIC image: what fdpic_layout_parse derives from the ELF header,
    the program headers and the dynamic table. File bytes are a sequence f. */
module Elf {
  import opened Bytes

  const PT_LOAD: uint32 := 1
  const PT_DYNAMIC: uint32 := 2
  const PT_INTERP: uint32 := 3
  const INTERP_MAX: uint32 := 256
  const DT_NULL: uint32 := 0
  const DT_NEEDED: uint32 := 1
  const DT_PLTGOT: uint32 := 3
  const DT_SYMTAB: uint32 := 6
  const DT_REL: uint32 := 17
  const DT_RELSZ: uint32 := 18
  const DT_RELENT: uint32 := 19
  const UINT32_MAX: uint32 := 0xFFFF_FFFF

  datatype Code = InvalidParam | NotSupported | NoMemory

  datatype Phdr = Phdr(kind: uint32, off: uint32, vaddr: uint32, filesz: uint32, memsz: uint32, flags: uint32) {
    predicate Exec() { flags % 2 == 1 }
  }

  /** Where the program headers are. */
  datatype Table = Table(phoff: uint32, ent: uint16, num: uint16)

  predicate TableFits(f: seq<byte>, t: Table) {
    t.ent >= 32 && t.phoff + t.num * t.ent <= |f|
  }

  lemma RowFits(f: seq<byte>, t: Table, i: nat)
    requires TableFits(f, t) && i < t.num
    ensures 0 <= i * t.ent && t.phoff + i * t.ent + 32 <= |f|
  {
    assert i * t.ent + t.ent == (i + 1) * t.ent <= t.num * t.ent;
  }

  function PhAt(f: seq<byte>, t: Table, i: nat): Phdr
    requires TableFits(f, t) && i < t.num
  {
    RowFits(f, t, i);
    var p := t.phoff + i * t.ent;
    Phdr(Word(f, p), Word(f, p + 4), Word(f, p + 8), Word(f, p + 16), Word(f, p + 20), Word(f, p + 24))
  }

  /** The PT_LOAD headers among the first n, in order. */
  function Loads(f: seq<byte>, t: Table, n: nat): seq<Phdr>
    requires TableFits(f, t) && n <= t.num
  {
    if n == 0 then []
    else
      var p := PhAt(f, t, n - 1);
      if p.kind == PT_LOAD then Loads(f, t, n - 1) + [p] else Loads(f, t, n - 1)
  }

  /** The locals the first loop of fdpic_layout_parse accumulates. */
  datatype Scan = Scan(textSz: uint32, textOff: uint32, rwLo: uint32, rwHi: uint32, dynV: uint32, dynSz: uint32,
                       interpOff: uint32, interpSz: uint32, haveText: bool, nload: nat)

  const SCAN0 := Scan(0, 0, UINT32_MAX, 0, 0, 0, 0, 0, false, 0)

  /** System V gABI, Program Header: p_filesz may not exceed p_memsz; here the file bytes must lie
      in the image and the addresses below 2^32, and text may not have a zero-filled tail. */
  predicate SegOk(p: Phdr, fileSize: nat) {
    && p.filesz <= p.memsz && p.off + p.filesz <= fileSize && p.vaddr + p.memsz <= UINT32_MAX
    && (p.Exec() ==> p.filesz == p.memsz)
  }

  function Noted(s: Scan, p: Phdr): Scan {
    if p.kind == PT_DYNAMIC then s.(dynV := p.vaddr, dynSz := p.memsz)
    else if p.kind == PT_INTERP then s.(interpOff := p.off, interpSz := p.filesz)
    else s
  }

  function Step(s: Scan, p: Phdr, fileSize: nat): Option<Scan> {
    if p.kind != PT_LOAD then Some(Noted(s, p))
    else if !SegOk(p, fileSize) then None
    else if p.Exec() then Some(s.(nload := s.nload + 1, textSz := p.memsz, textOff := p.off, haveText := true))
    else
      var end: uint32 := p.vaddr + p.memsz;
      Some(s.(nload := s.nload + 1, rwLo := if p.vaddr < s.rwLo then p.vaddr else s.rwLo,
              rwHi := if end > s.rwHi then end else s.rwHi))
  }

  function ScanTo(f: seq<byte>, t: Table, n: nat): Option<Scan>
    requires TableFits(f, t) && n <= t.num
  {
    if n == 0 then Some(SCAN0)
    else
      var s := ScanTo(f, t, n - 1);
      if s.None? then None else Step(s.value, PhAt(f, t, n - 1), |f|)
  }

  /** fdpic_file_range over the PT_LOAD list: the file offset of [v, v + need), if one segment
      backs it with file bytes. */
  function FileRange(ls: seq<Phdr>, fileSize: nat, v: uint32, need: uint32): Option<nat> {
    if ls == [] then None
    else
      var p := ls[0];
      if v >= p.vaddr && v - p.vaddr + need <= p.filesz && p.off + (v - p.vaddr) + need <= fileSize
      then Some(p.off + (v - p.vaddr))
      else FileRange(ls[1..], fileSize, v, need)
  }

  /** What the dynamic table says. */
  datatype Dyn = Dyn(rel: uint32, relSz: uint32, relEnt: uint32, pltgot: uint32, symtab: uint32, needed: bool)

  const DYN0 := Dyn(0, 0, 8, 0, 0, false)

  function DynTag(d: Dyn, tag: uint32, val: uint32): Dyn {
    if tag == DT_NEEDED then d.(needed := true)
    else if tag == DT_REL then d.(rel := val)
    else if tag == DT_RELSZ then d.(relSz := val)
    else if tag == DT_RELENT then d.(relEnt := val)
    else if tag == DT_PLTGOT then d.(pltgot := val)
    else if tag == DT_SYMTAB then d.(symtab := val)
    else d
  }

  /** Read tag and value pairs from b up to a DT_NULL or the end of the table. */
  function DynFrom(b: seq<byte>, o: nat, d: Dyn): Dyn
    decreases |b| - o
  {
    if o + 8 > |b| || Word(b, o) == DT_NULL then d
    else DynFrom(b, o + 8, DynTag(d, Word(b, o), Word(b, o + 4)))
  }

  /** Entries before the DT_NULL or the end of the table. */
  function DynCount(b: seq<byte>, o: nat): (n: nat)
    ensures o + 8 * n <= |b| || n == 0
    decreases |b| - o
  {
    if o + 8 > |b| || Word(b, o) == 0 then 0 else 1 + DynCount(b, o + 8)
  }

  /** The value of the last of the first n entries with this tag, or z. */
  function LastOf(b: seq<byte>, tag: uint32, n: nat, z: uint32): uint32
    requires 8 * n <= |b|
  {
    if n == 0 then z
    else if Word(b, 8 * n - 8) == tag then Word(b, 8 * n - 4) else LastOf(b, tag, n - 1, z)
  }

  /** What the table says, entry by entry from the front, is what the last entry of each tag says. */
  lemma {:induction false} DynMeaningFrom(b: seq<byte>, i: nat, n: nat, d: Dyn, x: bool)
    requires i <= n && n == i + DynCount(b, 8 * i) && 8 * n <= |b|
    requires d == Dyn(LastOf(b, 17, i, 0), LastOf(b, 18, i, 0), LastOf(b, 19, i, 8), LastOf(b, 3, i, 0),
                      LastOf(b, 6, i, 0), x)
    requires x <==> exists k :: 0 <= k < i && TagAt(b, k) == 1
    ensures DynFrom(b, 8 * i, d) ==
            Dyn(LastOf(b, 17, n, 0), LastOf(b, 18, n, 0), LastOf(b, 19, n, 8), LastOf(b, 3, n, 0), LastOf(b, 6, n, 0),
                exists k :: 0 <= k < n && TagAt(b, k) == 1)
    decreases n - i
  {
    hide Word;
    if i < n {
      var e := DynTag(d, Word(b, 8 * i), Word(b, 8 * i + 4));
      if e.needed && !x { assert TagAt(b, i) == 1; }
      if exists k :: 0 <= k < i + 1 && TagAt(b, k) == 1 {
        var k :| 0 <= k < i + 1 && TagAt(b, k) == 1;
        assert k == i || x;
      }
      DynMeaningFrom(b, i + 1, n, e, e.needed);
    }
  }

  /** The tag of entry k, 0 past the end. */
  function TagAt(b: seq<byte>, k: nat): uint32 { if 8 * k + 8 <= |b| then Word(b, 8 * k) else 0 }

  /** Each field is the value of the last entry of its tag before the end of the table, and DT_NEEDED
      counts if it occurs at all. */
  lemma DynMeaning(b: seq<byte>)
    ensures var n := DynCount(b, 0);
            && 8 * n <= |b| && (8 * n + 8 <= |b| ==> TagAt(b, n) == 0)
            && DynFrom(b, 0, DYN0) ==
               Dyn(LastOf(b, 17, n, 0), LastOf(b, 18, n, 0), LastOf(b, 19, n, 8), LastOf(b, 3, n, 0),
                   LastOf(b, 6, n, 0), exists k :: 0 <= k < n && TagAt(b, k) == 1)
  {
    DynStops(b, 0);
    DynMeaningFrom(b, 0, DynCount(b, 0), DYN0, false);
  }

  lemma {:induction false} DynStops(b: seq<byte>, i: nat)
    ensures var n := i + DynCount(b, 8 * i); 8 * n + 8 <= |b| ==> TagAt(b, n) == 0
    decreases |b| - 8 * i
  {
    hide Word;
    if 8 * i + 8 <= |b| && Word(b, 8 * i) != 0 { DynStops(b, i + 1); }
  }

  // ---- the layout ------------------------------------------------------------------

  datatype Layout = Layout(
    entry: uint32, table: Table, nload: nat, textSize: uint32, textOff: uint32,
    rwLo: uint32, rwSpan: nat, rwAligned: nat, loadmapSize: nat, textReserved: nat,
    dynVaddr: uint32, dynSize: uint32, interpOff: uint32, interpSize: uint32)

  datatype Parsed = Accept(layout: Layout) | Reject(code: Code)

  /** copied_text_map_size: the lower half of a power-of-two region, if the text fits it. */
  function TextHalf(textSz: nat, region: nat): nat {
    if region < 64 || !IsPower(region) || textSz > region / 2 then 0 else region / 2
  }

  /** region & (region - 1) == 0 */
  predicate IsPower(n: nat) {
    n == 1 || (n > 1 && n % 2 == 0 && IsPower(n / 2))
  }

  function Up4(n: nat): nat { (n + 3) / 4 * 4 }
  function Up8(n: nat): nat { (n + 7) / 8 * 8 }

  function HeaderCheck(f: seq<byte>, fpu: bool): Option<Code> {
    if |f| < 52 then Some(InvalidParam)
    else if f[0] != 0x7f || f[1] != 0x45 || f[2] != 0x4c || f[3] != 0x46 || f[4] != 1 then Some(InvalidParam)
    else if Half(f, 16) != 3 || Half(f, 18) != 40 then Some(InvalidParam)
    else if f[7] != 65 && Word(f, 36) / 0x1000_0000 % 2 == 0 then Some(NotSupported)
    else if !fpu && Word(f, 36) / 0x400 % 2 == 1 then Some(NotSupported)
    else None
  }

  function TableOf(f: seq<byte>): Table
    requires |f| >= 52
  {
    Table(Word(f, 28), Half(f, 42), Half(f, 44))
  }

  function RwSpan(s: Scan): nat { if s.rwHi > s.rwLo then s.rwHi - s.rwLo else 0 }

  predicate InterpOk(f: seq<byte>, s: Scan) {
    s.interpSz == 0 ||
    (s.interpSz <= INTERP_MAX && s.interpOff + s.interpSz <= |f| && f[s.interpOff + s.interpSz - 1] == 0)
  }

  /** The dynamic table of the file: its bytes, empty without PT_DYNAMIC; None if not acceptable. */
  function DynBytes(f: seq<byte>, ls: seq<Phdr>, s: Scan): (r: Option<seq<byte>>) {
    if s.dynV == 0 then Some([])
    else if s.rwLo == UINT32_MAX || s.dynV < s.rwLo || s.dynV + s.dynSz > s.rwHi then None
    else
      var o := FileRange(ls, |f|, s.dynV, s.dynSz);
      if o.None? || o.value + s.dynSz > |f| then None else Some(f[o.value..o.value + s.dynSz])
  }

  /** Everything after the program-header loop. */
  function Finish(f: seq<byte>, t: Table, s: Scan, ls: seq<Phdr>, region: nat, copy: bool): Parsed
    requires |f| >= 52
  {
    var lm := 4 + s.nload * 12;
    var rwA := Up4(RwSpan(s));
    var textA := if copy then TextHalf(s.textSz, region) else 0;
    if !s.haveText || s.nload == 0 || !InterpOk(f, s) then Reject(InvalidParam)
    else if RwSpan(s) > region || (copy && textA == 0) || textA + rwA + lm > region then Reject(NoMemory)
    else
      var b := DynBytes(f, ls, s);
      if b.None? then Reject(InvalidParam)
      else
        var d := DynFrom(b.value, 0, DYN0);
        if d.relSz != 0 && d.relEnt < 8 then Reject(InvalidParam)
        else if textA + Up8(rwA + lm) + MaxFd(d) * 8 > region then Reject(NoMemory)
        else Accept(Layout(Word(f, 24), t, s.nload, s.textSz, s.textOff, s.rwLo, RwSpan(s), rwA, lm, textA,
                           s.dynV, s.dynSz, s.interpOff, s.interpSz))
  }

  /** At most one descriptor per relocation. */
  function MaxFd(d: Dyn): nat { if d.relEnt == 0 then 0 else d.relSz / d.relEnt }

  function ParseSpec(f: seq<byte>, region: nat, copy: bool, fpu: bool): Parsed {
    var h := HeaderCheck(f, fpu);
    if h.Some? then Reject(h.value)
    else
      var t := TableOf(f);
      if !TableFits(f, t) then Reject(InvalidParam)
      else
        var s := ScanTo(f, t, t.num);
        if s.None? then Reject(InvalidParam) else Finish(f, t, s.value, Loads(f, t, t.num), region, copy)
  }

  // ---- the parser as written ----------------------------------------------------------

  lemma {:induction false} LoadsPrefix(f: seq<byte>, t: Table, i: nat, n: nat)
    requires TableFits(f, t) && i <= n <= t.num
    ensures |Loads(f, t, i)| <= |Loads(f, t, n)| && Loads(f, t, n)[..|Loads(f, t, i)|] == Loads(f, t, i)
    decreases n - i
  {
    if i < n {
      LoadsPrefix(f, t, i, n - 1);
      var a, b := Loads(f, t, n - 1), Loads(f, t, n);
      assert b[..|Loads(f, t, i)|] == a[..|Loads(f, t, i)|];
    }
  }

  lemma {:induction false} FileRangeAppend(a: seq<Phdr>, b: seq<Phdr>, size: nat, v: uint32, need: uint32)
    ensures FileRange(a + b, size, v, need) ==
            if FileRange(a, size, v, need).Some? then FileRange(a, size, v, need) else FileRange(b, size, v, need)
  {
    if a == [] {
      assert a + b == b;
    } else {
      assert (a + b)[1..] == a[1..] + b;
      FileRangeAppend(a[1..], b, size, v, need);
    }
  }

  lemma FileRangeOne(p: Phdr, size: nat, v: uint32, need: uint32)
    ensures FileRange([p], size, v, need) ==
            if v >= p.vaddr && v - p.vaddr + need <= p.filesz && p.off + (v - p.vaddr) + need <= size
            then Some(p.off + (v - p.vaddr)) else None
  {
    assert [p][1..] == [];
  }

  lemma FileRangeHit(f: seq<byte>, t: Table, i: nat, v: uint32, need: uint32)
    requires TableFits(f, t) && i <= t.num && FileRange(Loads(f, t, i), |f|, v, need).Some?
    ensures FileRange(Loads(f, t, t.num), |f|, v, need) == FileRange(Loads(f, t, i), |f|, v, need)
  {
    LoadsPrefix(f, t, i, t.num);
    var all, pre := Loads(f, t, t.num), Loads(f, t, i);
    assert all == pre + all[|pre|..];
    FileRangeAppend(pre, all[|pre|..], |f|, v, need);
  }

  /** fdpic_file_range */
  method FindFileRange(f: seq<byte>, t: Table, v: uint32, need: uint32) returns (r: Option<nat>)
    requires TableFits(f, t)
    ensures r == FileRange(Loads(f, t, t.num), |f|, v, need)
  {
    hide Word, TableFits;
    var i := 0;
    while i < t.num
      invariant 0 <= i <= t.num
      invariant FileRange(Loads(f, t, i), |f|, v, need) == None
    {
      var p := PhAt(f, t, i);
      FileRangeAppend(Loads(f, t, i), [p], |f|, v, need);
      FileRangeOne(p, |f|, v, need);
      if p.kind == PT_LOAD && v >= p.vaddr {
        var delta := v - p.vaddr;
        if delta + need <= p.filesz && p.off + delta + need <= |f| {
          FileRangeHit(f, t, i + 1, v, need);
          return Some(p.off + delta);
        }
      }
      i := i + 1;
    }
    r := None;
  }

  /** The program-header loop. */
  method ScanHeaders(f: seq<byte>, t: Table) returns (r: Option<Scan>)
    requires TableFits(f, t)
    ensures r == ScanTo(f, t, t.num)
  {
    hide Word, TableFits;
    var textSz, textOff, rwLo, rwHi, dynV, dynSz, interpOff, interpSz := 0, 0, UINT32_MAX, 0, 0, 0, 0, 0;
    var haveText, nload := false, 0;
    var i := 0;
    while i < t.num
      invariant 0 <= i <= t.num
      invariant 0 <= textSz < TWO32 && 0 <= textOff < TWO32 && 0 <= rwHi < TWO32 && 0 <= nload
      invariant 0 <= dynV < TWO32 && 0 <= dynSz < TWO32 && 0 <= interpOff < TWO32 && 0 <= interpSz < TWO32
      invariant ScanTo(f, t, i) ==
          Some(Scan(textSz, textOff, rwLo, rwHi, dynV, dynSz, interpOff, interpSz, haveText, nload))
    {
      var p := PhAt(f, t, i);
      i := i + 1;
      if p.kind == PT_DYNAMIC {
        dynV, dynSz := p.vaddr, p.memsz;
      }
      if p.kind == PT_INTERP {
        interpOff, interpSz := p.off, p.filesz;
      }
      if p.kind != PT_LOAD {
        continue;
      }
      nload := nload + 1;
      if p.filesz > p.memsz || p.off + p.filesz > |f| || p.vaddr + p.memsz > UINT32_MAX {
        ScanFails(f, t, i, t.num);
        return None;
      }
      if p.Exec() {
        if p.filesz != p.memsz {
          ScanFails(f, t, i, t.num);
          return None;
        }
        textSz, textOff, haveText := p.memsz, p.off, true;
      } else {
        var end := p.vaddr + p.memsz;
        if p.vaddr < rwLo {
          rwLo := p.vaddr;
        }
        if end > rwHi {
          rwHi := end;
        }
      }
    }
    r := Some(Scan(textSz, textOff, rwLo, rwHi, dynV, dynSz, interpOff, interpSz, haveText, nload));
  }

  lemma {:induction false} ScanFails(f: seq<byte>, t: Table, i: nat, n: nat)
    requires TableFits(f, t) && i <= n <= t.num && ScanTo(f, t, i) == None
    ensures ScanTo(f, t, n) == None
    decreases n - i
  {
    if i < n {
      ScanFails(f, t, i, n - 1);
    }
  }

  /** The dynamic-table loop, which only looks for DT_RELSZ and DT_RELENT. */
  method RelSizes(b: seq<byte>) returns (relSz: uint32, relEnt: uint32)
    ensures relSz == DynFrom(b, 0, DYN0).relSz && relEnt == DynFrom(b, 0, DYN0).relEnt
  {
    hide Word;
    relSz, relEnt := 0, 8;
    ghost var d := DYN0;
    var o := 0;
    while o + 8 <= |b|
      invariant 0 <= o && d.relSz == relSz && d.relEnt == relEnt
      invariant DynFrom(b, o, d) == DynFrom(b, 0, DYN0)
    {
      var tag, val := Word(b, o), Word(b, o + 4);
      if tag == DT_NULL {
        return;
      }
      d := DynTag(d, tag, val);
      if tag == DT_RELSZ {
        relSz := val;
      } else if tag == DT_RELENT {
        relEnt := val;
      }
      o := o + 8;
    }
  }

  /** The checks on PT_DYNAMIC and the sizes its table declares. */
  method DynSizes(f: seq<byte>, t: Table, s: Scan) returns (ok: bool, relSz: uint32, relEnt: uint32)
    requires TableFits(f, t)
    ensures ok == DynBytes(f, Loads(f, t, t.num), s).Some?
    ensures ok ==> relSz == DynFrom(DynBytes(f, Loads(f, t, t.num), s).value, 0, DYN0).relSz
    ensures ok ==> relEnt == DynFrom(DynBytes(f, Loads(f, t, t.num), s).value, 0, DYN0).relEnt
  {
    hide Word, Loads, FileRange, TableFits;
    relSz, relEnt, ok := 0, 8, true;
    if s.dynV != 0 {
      if s.rwLo == UINT32_MAX || s.dynV < s.rwLo || s.dynV + s.dynSz > s.rwHi {
        return false, 0, 8;
      }
      var o := FindFileRange(f, t, s.dynV, s.dynSz);
      if o.None? || o.value + s.dynSz > |f| {
        return false, 0, 8;
      }
      relSz, relEnt := RelSizes(f[o.value..o.value + s.dynSz]);
    }
  }

  method FinishLayout(f: seq<byte>, t: Table, s: Scan, region: nat, copy: bool) returns (r: Parsed)
    requires |f| >= 52 && TableFits(f, t)
    ensures r == Finish(f, t, s, Loads(f, t, t.num), region, copy)
  {
    hide Word, Loads, DynFrom, DynBytes, TextHalf, TableFits, InterpOk, Up4, Up8, RwSpan;
    if !s.haveText || s.nload == 0 || !InterpOk(f, s) {
      return Reject(InvalidParam);
    }
    var span := RwSpan(s);
    if span > region {
      return Reject(NoMemory);
    }
    var rwA, lm := Up4(span), 4 + s.nload * 12;
    var textA := if copy then TextHalf(s.textSz, region) else 0;
    if copy && textA == 0 {
      return Reject(NoMemory);
    }
    if textA + rwA + lm > region {
      return Reject(NoMemory);
    }
    var ok, relSz, relEnt := DynSizes(f, t, s);
    if !ok || (relSz != 0 && relEnt < 8) {
      return Reject(InvalidParam);
    }
    var maxFd := if relEnt != 0 then relSz / relEnt else 0;
    if textA + Up8(rwA + lm) + maxFd * 8 > region {
      return Reject(NoMemory);
    }
    r := Accept(Layout(Word(f, 24), t, s.nload, s.textSz, s.textOff, s.rwLo, span, rwA, lm, textA,
                       s.dynV, s.dynSz, s.interpOff, s.interpSz));
  }

  lemma {:induction false} FewLoads(f: seq<byte>, t: Table, n: nat)
    requires TableFits(f, t) && n <= t.num && ScanTo(f, t, n).Some?
    ensures ScanTo(f, t, n).value.nload <= n
  {
    hide Word, PhAt, TableFits;
    if n > 0 { FewLoads(f, t, n - 1); }
  }

  /** Short of the last 16 bytes of the address range none of the 32-bit sums of the parse wraps when it
      is reached: the rounded RW span, the loadmap size, the pool offset, and the cursor of the dynamic
      table, which stops at most at its size. */
  lemma NoSumWraps(f: seq<byte>, t: Table, region: nat, copy: bool)
    requires TableFits(f, t) && region <= TWO32 - 16 && ScanTo(f, t, t.num).Some?
    ensures var s := ScanTo(f, t, t.num).value;
            var rwA, lm := Up4(RwSpan(s)), 4 + s.nload * 12;
            var textA := if copy then TextHalf(s.textSz, region) else 0;
            && lm < TWO32
            && (RwSpan(s) <= region ==> RwSpan(s) + 3 < TWO32 && rwA < TWO32)
            && (textA + rwA + lm <= region ==> rwA + lm + 7 < TWO32)
            && (RwSpan(s) <= region && s.dynV != 0 && DynBytes(f, Loads(f, t, t.num), s).Some? ==> s.dynSz + 8 < TWO32)
  {
    hide Word, ScanTo, Loads, TableFits, TextHalf, FileRange;
    FewLoads(f, t, t.num);
  }

  /** fdpic_layout_parse, which is also lxp_loader_validate_fdpic. Short of the last 16 bytes of the
      address range none of its 32-bit sums wraps, as NoSumWraps says. */
  method ParseLayout(f: seq<byte>, region: nat, copy: bool, fpu: bool) returns (r: Parsed)
    requires |f| < TWO32 && region <= TWO32 - 16
    ensures r == ParseSpec(f, region, copy, fpu)
  {
    hide Word, HeaderCheck, ScanTo, Loads, Finish, TableFits;
    var h := HeaderCheck(f, fpu);
    if h.Some? {
      return Reject(h.value);
    }
    HeaderLong(f, fpu);
    var t := TableOf(f);
    if !TableFits(f, t) {
      return Reject(InvalidParam);
    }
    var s := ScanHeaders(f, t);
    if s.None? {
      return Reject(InvalidParam);
    }
    r := FinishLayout(f, t, s.value, region, copy);
  }

  lemma HeaderLong(f: seq<byte>, fpu: bool)
    requires HeaderCheck(f, fpu).None?
    ensures |f| >= 52
  {
  }
}
