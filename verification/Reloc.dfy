/** Applying .rel.dyn through the loadmap that was just written. */
module Reloc {
  import opened Bytes
  import opened Elf
  import opened Fdpic
  import opened Loadmap

  const R_ABS32: int := 2
  const R_RELATIVE: int := 23
  const R_FUNCDESC: int := 163
  const R_FUNCDESC_VALUE: int := 164

  /** What the relocation walk works with. */
  datatype Ctx = Ctx(es: seq<Entry>, lm: nat, rel0: nat, relSz: nat, relEnt: nat, symV: uint32, got: uint32,
                     pool: nat) {
    function Count(): nat { if relEnt == 0 then 0 else relSz / relEnt }
    function RelAt(j: nat): nat { rel0 + j * relEnt }
  }

  /** Segments and table inside memory, with segments, loadmap and pool disjoint. */
  ghost predicate Good(c: Ctx, top: nat) {
    && top < TWO32
    && (forall k :: 0 <= k < |c.es| ==> 0 < c.es[k].addr && c.es[k].addr + c.es[k].msz <= top)
    && (forall k :: 0 <= k < |c.es| ==> c.es[k].addr + c.es[k].msz <= c.lm || c.pool + 8 * c.Count() <= c.es[k].addr)
    && Disjoint(c.es)
    && c.lm + 4 + 12 * |c.es| <= c.pool && c.pool + 8 * c.Count() <= top
    && c.rel0 != 0 && c.rel0 + c.relSz <= top && c.relEnt >= 8
  }

  lemma EntryFits(c: Ctx, top: nat, j: nat)
    requires Good(c, top) && j < c.Count()
    ensures c.RelAt(j) + 8 <= c.rel0 + c.relSz <= top && c.rel0 <= c.RelAt(j)
  {
    var n := c.Count();
    assert c.relEnt * n <= c.relSz;
    assert (j + 1) * c.relEnt <= n * c.relEnt;
  }

  datatype Reloc = Reloc(off: uint32, kind: nat, sym: nat)

  function RelocIn(m: seq<byte>, r: nat): Reloc
    requires r + 8 <= |m|
  {
    var info := Word(m, r + 4);
    Reloc(Word(m, r), info % 0x100, info / 0x100)
  }

  /** The j-th relocation and the place it patches. */
  function At(m: seq<byte>, c: Ctx, j: nat): Reloc
    requires Good(c, |m|) && j < c.Count()
  {
    EntryFits(c, |m|, j);
    RelocIn(m, c.RelAt(j))
  }

  function Where(m: seq<byte>, c: Ctx, j: nat): nat
    requires Good(c, |m|) && j < c.Count()
  {
    RtN(c.es, At(m, c, j).off, 8)
  }

  /** Bytes the relocation stores. */
  function Width(r: Reloc): nat {
    if r.kind == R_FUNCDESC_VALUE then 8
    else if r.kind == R_RELATIVE || r.kind == R_ABS32 || r.kind == R_FUNCDESC then 4 else 0
  }

  lemma Bounded(c: Ctx, top: nat, v: nat, need: nat)
    requires Good(c, top) && RtN(c.es, v, need) != 0
    ensures RtN(c.es, v, need) + need <= top
    ensures RtN(c.es, v, need) + need <= c.lm || c.pool + 8 * c.Count() <= RtN(c.es, v, need)
  {
    var k := RtNInside(c.es, v, need);
  }

  function SymAt(c: Ctx, sym: int): nat
    requires 0 <= sym
  {
    RtN(c.es, c.symV + sym * 16, 16)
  }

  /** The symbol exists and is not SHN_UNDEF. */
  predicate Defined(m: seq<byte>, c: Ctx, sym: int)
    requires Good(c, |m|) && 0 <= sym
  {
    var s := SymAt(c, sym);
    c.symV != 0 && s != 0 && (Bounded(c, |m|, c.symV + sym * 16, 16); Half(m, s + 14) != 0)
  }

  /** st_value, plus the addend in place for a local symbol. */
  function ValueOf(m: seq<byte>, c: Ctx, sym: int, w: nat): int
    requires Good(c, |m|) && 0 <= sym && Defined(m, c, sym) && w + 4 <= |m|
  {
    var s := SymAt(c, sym);
    Bounded(c, |m|, c.symV + sym * 16, 16);
    (Word(m, s + 4) + (if m[s + 12] / 16 == 0 then Word(m, w) else 0)) % TWO32
  }

  /** The function of a synthesised descriptor: st_value plus the addend in place. */
  function AddendOf(m: seq<byte>, c: Ctx, sym: int, w: nat): int
    requires Good(c, |m|) && 0 <= sym && Defined(m, c, sym) && w + 4 <= |m|
  {
    var s := SymAt(c, sym);
    Bounded(c, |m|, c.symV + sym * 16, 16);
    (Word(m, s + 4) + Word(m, w)) % TWO32
  }

  /** The first FUNCDESC_VALUE at or after j for this symbol, or the count. */
  function MatchFrom(m: seq<byte>, c: Ctx, sym: int, j: nat): (r: nat)
    requires Good(c, |m|) && j <= c.Count()
    ensures j <= r <= c.Count()
    ensures r < c.Count() ==> At(m, c, r).kind == R_FUNCDESC_VALUE && At(m, c, r).sym == sym
    decreases c.Count() - j
  {
    if j == c.Count() then j
    else if At(m, c, j).kind == R_FUNCDESC_VALUE && At(m, c, j).sym == sym then j
    else MatchFrom(m, c, sym, j + 1)
  }

  lemma {:induction false} RtBound(es: seq<Entry>, v: nat, top: nat)
    requires forall k :: 0 <= k < |es| ==> es[k].addr + es[k].msz <= top
    ensures Rt(es, v) <= top
  {
    if es != [] {
      assert forall k :: 0 <= k < |es| - 1 ==> es[1..][k] == es[k + 1];
      RtBound(es[1..], v, top);
    }
  }

  // ---- resolving through the stored loadmap ------------------------------------------------

  /** The loadmap in memory is the one the context was built from. */
  ghost predicate MapStored(m: seq<byte>, c: Ctx) {
    c.lm + 4 + 12 * |c.es| <= |m| && Entries(m, c.lm, |c.es|) == c.es
  }

  method Resolve(mem: array<byte>, c: Ctx, v: nat) returns (a: nat)
    requires MapStored(mem[..], c)
    ensures a == Rt(c.es, v) && (Good(c, mem.Length) ==> a < TWO32)
  {
    hide Word, LoadWord;
    if Good(c, mem.Length) { RtBound(c.es, v, mem.Length); }
    hide Good;
    var i := 0;
    assert c.es[0..] == c.es;
    while i < |c.es|
      invariant 0 <= i <= |c.es| && Rt(c.es[i..], v) == Rt(c.es, v)
    {
      var e := c.lm + 4 + i * 12;
      var addr: int, pv: int, msz: int := LoadWord(mem, e), LoadWord(mem, e + 4), LoadWord(mem, e + 8);
      assert EntryIn(mem[..], c.lm, i) == Entries(mem[..], c.lm, |c.es|)[i] == c.es[i];
      assert c.es[i..][1..] == c.es[i + 1..];
      if v >= pv && v < pv + msz {
        return addr + (v - pv);
      }
      i := i + 1;
    }
    a := 0;
  }

  method ResolveN(mem: array<byte>, c: Ctx, v: nat, need: nat) returns (a: nat)
    requires MapStored(mem[..], c)
    ensures a == RtN(c.es, v, need)
  {
    hide Word, LoadWord;
    if v > UINT32_MAX {
      return 0;
    }
    var i := 0;
    assert c.es[0..] == c.es;
    while i < |c.es|
      invariant 0 <= i <= |c.es| && RtN(c.es[i..], v, need) == RtN(c.es, v, need)
    {
      var e := c.lm + 4 + i * 12;
      var addr: int, pv: int, msz: int := LoadWord(mem, e), LoadWord(mem, e + 4), LoadWord(mem, e + 8);
      assert EntryIn(mem[..], c.lm, i) == Entries(mem[..], c.lm, |c.es|)[i] == c.es[i];
      assert c.es[i..][1..] == c.es[i + 1..];
      if v >= pv && v + need <= pv + msz {
        return addr + (v - pv);
      }
      i := i + 1;
    }
    a := 0;
  }

  // ---- one relocation ------------------------------------------------------------------------

  /** n differs from m only in [a, a + x) and [b, b + y). */
  ghost predicate Only(m: seq<byte>, n: seq<byte>, a: nat, x: nat, b: nat, y: nat) {
    |m| == |n| && forall k :: 0 <= k < |m| && !(a <= k < a + x) && !(b <= k < b + y) ==> m[k] == n[k]
  }

  /** What a descriptor slot of symbol sym ends as. */
  ghost predicate DescSet(m: seq<byte>, n: seq<byte>, c: Ctx, sym: int, w: nat, u: nat, u': nat)
    requires Good(c, |m|) && 0 <= sym && w + 8 <= |m| == |n|
  {
    if !Defined(m, c, sym) then u' == u && Word(n, w) == 0
    else
      var p := MatchFrom(m, c, sym, 0);
      if p < c.Count() && Rt(c.es, At(m, c, p).off) != 0 then u' == u && Word(n, w) == Rt(c.es, At(m, c, p).off)
      else
        && u' == u + 8 && c.pool + u' <= |n| && Word(n, w) == c.pool + u
        && Word(n, c.pool + u) == Rt(c.es, AddendOf(m, c, sym, w)) && Word(n, c.pool + u + 4) == c.got
  }

  /** The meaning of relocation j: m before, n after, u and u' bytes of the pool used. */
  ghost predicate Effect(m: seq<byte>, n: seq<byte>, c: Ctx, j: nat, u: nat, u': nat)
    requires Good(c, |m|) && j < c.Count() && |n| == |m|
  {
    var r, w := At(m, c, j), Where(m, c, j);
    if w == 0 then n == m && u' == u
    else
      Bounded(c, |m|, r.off, 8);
      if r.kind == R_RELATIVE || r.kind == R_ABS32 then u' == u && Word(n, w) == Rt(c.es, Word(m, w))
      else if r.kind == R_FUNCDESC_VALUE then
        && u' == u
        && Word(n, w) == (if Defined(m, c, r.sym) then Rt(c.es, ValueOf(m, c, r.sym, w)) else 0)
        && Word(n, w + 4) == (if Defined(m, c, r.sym) then c.got else 0)
      else if r.kind == R_FUNCDESC then DescSet(m, n, c, r.sym, w, u, u')
      else n == m && u' == u
  }

  method FindSymbol(mem: array<byte>, c: Ctx, sym: int) returns (s: nat, ok: bool)
    requires MapStored(mem[..], c) && Good(c, mem.Length) && 0 <= sym
    ensures ok == Defined(mem[..], c, sym)
    ensures ok ==> s == SymAt(c, sym) && s + 16 <= mem.Length
  {
    hide Good, MapStored;
    s := ResolveN(mem, c, c.symV + sym * 16, 16);
    ok := false;
    if s != 0 {
      Bounded(c, mem.Length, c.symV + sym * 16, 16);
      var lo: int, hi: int := mem[s + 14], mem[s + 15];
      ok := c.symV != 0 && lo + 0x100 * hi != 0;
    }
  }

  method ApplyValue(mem: array<byte>, c: Ctx, sym: int, w: nat)
    requires MapStored(mem[..], c) && Good(c, mem.Length) && 0 <= sym && w + 8 <= mem.Length
    modifies mem
    ensures Only(old(mem[..]), mem[..], w, 8, c.pool, 0)
    ensures Word(mem[..], w) ==
        (if Defined(old(mem[..]), c, sym) then Rt(c.es, ValueOf(old(mem[..]), c, sym, w)) else 0)
    ensures Word(mem[..], w + 4) == (if Defined(old(mem[..]), c, sym) then c.got else 0)
  {
    hide Good, MapStored, Word, LoadWord, Defined;
    var s, ok := FindSymbol(mem, c, sym);
    var w0, w1 := 0, 0;
    if ok {
      var fnv: int := LoadWord(mem, s + 4);
      if mem[s + 12] / 16 == 0 {
        fnv := (fnv + LoadWord(mem, w)) % TWO32;
      }
      w0 := Resolve(mem, c, fnv);
      w1 := c.got;
      assert fnv == ValueOf(mem[..], c, sym, w);
    }
    StoreWord(mem, w, w0);
    ghost var m1 := mem[..];
    StoreWord(mem, w + 4, w1);
    WordFrame(m1, mem[..], w);
  }

  /** The inner search for a FUNCDESC_VALUE of the same symbol. */
  method FindMatch(mem: array<byte>, c: Ctx, sym: int) returns (p: nat)
    requires Good(c, mem.Length)
    ensures p == MatchFrom(mem[..], c, sym, 0)
  {
    hide Word, LoadWord, Good;
    p := 0;
    while p < c.Count()
      invariant 0 <= p <= c.Count() && MatchFrom(mem[..], c, sym, 0) == MatchFrom(mem[..], c, sym, p)
    {
      EntryFits(c, mem.Length, p);
      var i2 := LoadWord(mem, c.RelAt(p) + 4);
      if i2 % 0x100 == R_FUNCDESC_VALUE && i2 / 0x100 == sym {
        return;
      }
      p := p + 1;
    }
  }

  /** Synthesise a {function, GOT} descriptor at d. */
  method MakeDesc(mem: array<byte>, d: nat, fn: uint32, got: uint32)
    requires d + 8 <= mem.Length
    modifies mem
    ensures AgreeOutside(old(mem[..]), mem[..], d, d + 8)
    ensures Word(mem[..], d) == fn && Word(mem[..], d + 4) == got
  {
    hide Word;
    StoreWord(mem, d, fn);
    ghost var m1 := mem[..];
    StoreWord(mem, d + 4, got);
    WordFrame(m1, mem[..], d);
  }

  /** The address a FUNCDESC slot should hold if a FUNCDESC_VALUE slot exists, or 0. */
  method SharedDesc(mem: array<byte>, c: Ctx, sym: int) returns (descr: nat)
    requires MapStored(mem[..], c) && Good(c, mem.Length)
    ensures descr < TWO32
    ensures var p := MatchFrom(mem[..], c, sym, 0);
            descr == if p < c.Count() then Rt(c.es, At(mem[..], c, p).off) else 0
  {
    hide Good, MapStored, Word, LoadWord;
    var p := FindMatch(mem, c, sym);
    descr := 0;
    if p < c.Count() {
      EntryFits(c, mem.Length, p);
      descr := Resolve(mem, c, LoadWord(mem, c.RelAt(p)));
    }
  }

  /** The address a FUNCDESC slot will hold, with a descriptor synthesised if none is shared. */
  ghost predicate Chosen(m: seq<byte>, n: seq<byte>, c: Ctx, sym: int, w: nat, u: nat, u': nat, d: nat)
    requires Good(c, |m|) && 0 <= sym && w + 8 <= |m| == |n|
  {
    if !Defined(m, c, sym) then u' == u && d == 0 && n == m
    else
      var p := MatchFrom(m, c, sym, 0);
      if p < c.Count() && Rt(c.es, At(m, c, p).off) != 0 then u' == u && n == m && d == Rt(c.es, At(m, c, p).off)
      else
        && u' == u + 8 && c.pool + u' <= |n| && d == c.pool + u
        && AgreeOutside(m, n, c.pool + u, c.pool + u')
        && Word(n, c.pool + u) == Rt(c.es, AddendOf(m, c, sym, w)) && Word(n, c.pool + u + 4) == c.got
  }

  lemma AddendReads(m: seq<byte>, c: Ctx, sym: nat, w: nat, s: nat)
    requires Good(c, |m|) && Defined(m, c, sym) && SymAt(c, sym) == s && w + 4 <= |m| && s + 16 <= |m|
    ensures AddendOf(m, c, sym, w) == (Word(m, s + 4) + Word(m, w)) % TWO32
  {
    hide Good, Word;
  }

  method NewDesc(mem: array<byte>, c: Ctx, sym: int, s: nat, w: nat, used: nat)
    requires MapStored(mem[..], c) && Good(c, mem.Length) && 0 <= sym && w + 8 <= mem.Length
    requires used + 8 <= 8 * c.Count() && Defined(mem[..], c, sym) && s == SymAt(c, sym) && s + 16 <= mem.Length
    modifies mem
    ensures c.pool + used + 8 <= mem.Length && AgreeOutside(old(mem[..]), mem[..], c.pool + used, c.pool + used + 8)
    ensures Word(mem[..], c.pool + used) == Rt(c.es, AddendOf(old(mem[..]), c, sym, w))
    ensures Word(mem[..], c.pool + used + 4) == c.got
  {
    PoolRoom(c, mem.Length);
    hide Good, MapStored, Word, LoadWord, Defined, Rt, AddendOf, SymAt;
    AddendReads(mem[..], c, sym, w, s);
    var fn := Resolve(mem, c, (LoadWord(mem, s + 4) + LoadWord(mem, w)) % TWO32);
    MakeDesc(mem, c.pool + used, fn, c.got);
  }

  method ChooseDesc(mem: array<byte>, c: Ctx, sym: int, w: nat, used: nat) returns (descr: nat, used': nat)
    requires MapStored(mem[..], c) && Good(c, mem.Length) && 0 <= sym && w + 8 <= mem.Length
    requires used + 8 <= 8 * c.Count()
    modifies mem
    ensures Chosen(old(mem[..]), mem[..], c, sym, w, used, used', descr) && descr < TWO32
  {
    PoolRoom(c, mem.Length);
    hide Good, MapStored, Word, LoadWord, Defined, MatchFrom, Rt;
    used', descr := used, 0;
    var s, ok := FindSymbol(mem, c, sym);
    if ok {
      descr := SharedDesc(mem, c, sym);
      if descr == 0 && used + 8 <= 8 * c.Count() {
        NewDesc(mem, c, sym, s, w, used);
        descr := c.pool + used;
        used' := used + 8;
      }
    }
  }

  lemma DescStored(m: seq<byte>, n: seq<byte>, o: seq<byte>, c: Ctx, sym: int, w: nat, u: nat, u': nat, d: nat)
    requires Good(c, |m|) && 0 <= sym && w + 8 <= |m| == |n|
    requires Chosen(m, n, c, sym, w, u, u', d) && Stored(n, o, w, d)
    requires u + 8 <= 8 * c.Count() && (w + 8 <= c.lm || c.pool + 8 * c.Count() <= w)
    ensures DescSet(m, o, c, sym, w, u, u') && u <= u' <= u + 8
    ensures Only(m, o, w, 4, c.pool + u, u' - u)
  {
    PoolRoom(c, |m|);
    hide Good, Word, Defined, MatchFrom, Rt;
    if u' == u + 8 {
      WordFrame(n, o, c.pool + u);
      WordFrame(n, o, c.pool + u + 4);
    }
  }

  method ApplyDesc(mem: array<byte>, c: Ctx, sym: int, w: nat, used: nat) returns (used': nat)
    requires MapStored(mem[..], c) && Good(c, mem.Length) && 0 <= sym && w + 8 <= mem.Length
    requires used + 8 <= 8 * c.Count() && (w + 8 <= c.lm || c.pool + 8 * c.Count() <= w)
    modifies mem
    ensures DescSet(old(mem[..]), mem[..], c, sym, w, used, used') && used <= used' <= used + 8
    ensures Only(old(mem[..]), mem[..], w, 4, c.pool + used, used' - used)
  {
    hide Good, MapStored, Word, Chosen, DescSet;
    ghost var m := mem[..];
    var descr;
    descr, used' := ChooseDesc(mem, c, sym, w, used);
    ghost var n := mem[..];
    StoreWord(mem, w, descr);
    DescStored(m, n, mem[..], c, sym, w, used, used', descr);
  }

  lemma PoolRoom(c: Ctx, top: nat)
    requires Good(c, top)
    ensures c.lm < c.pool && c.pool + 8 * c.Count() <= top < TWO32
  {
  }

  lemma Patches(c: Ctx, top: nat, off: nat)
    requires Good(c, top) && RtN(c.es, off, 8) != 0
    ensures var w := RtN(c.es, off, 8); w + 8 <= top && (w + 8 <= c.lm || c.pool + 8 * c.Count() <= w)
  {
    Bounded(c, top, off, 8);
  }

  /** One turn of the relocation loop. */
  method Apply(mem: array<byte>, c: Ctx, r: nat, ghost j: nat, used: nat) returns (used': nat)
    requires MapStored(mem[..], c) && Good(c, mem.Length) && j < c.Count() && used <= 8 * j && r == c.RelAt(j)
    modifies mem
    ensures used <= used' <= used + 8
    ensures Effect(old(mem[..]), mem[..], c, j, used, used')
    ensures Where(old(mem[..]), c, j) == 0 ==> mem[..] == old(mem[..])
    ensures var m := old(mem[..]); Only(m, mem[..], Where(m, c, j), Width(At(m, c, j)), c.pool + used, used' - used)
  {
    hide Good, MapStored, Word, LoadWord, DescSet, Defined, RtN, Rt;
    EntryFits(c, mem.Length, j);
    var off, info := LoadWord(mem, r), LoadWord(mem, r + 4);
    var kind, sym := info % 0x100, info / 0x100;
    used' := used;
    var w := ResolveN(mem, c, off, 8);
    if w != 0 {
      Patches(c, mem.Length, off);
      if kind == R_RELATIVE || kind == R_ABS32 {
        var v := Resolve(mem, c, LoadWord(mem, w));
        StoreWord(mem, w, v);
      } else if kind == R_FUNCDESC_VALUE {
        ApplyValue(mem, c, sym, w);
      } else if kind == R_FUNCDESC {
        used' := ApplyDesc(mem, c, sym, w, used);
      }
    }
  }
}
