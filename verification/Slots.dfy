/** What a relocated slot holds, read off the bytes: entries of .rel.dyn and of the symbol table as
    section "Relocation" and section "Symbol Table" of the System V gABI lay them out. */
module Slots {
  import opened Bytes
  import opened Elf
  import opened Fdpic
  import opened Loadmap
  import opened Reloc
  import opened RelocWalk
  import opened Loader

  /** Entry k of the relocation table: its type byte, its three symbol bytes. */
  predicate Entry8(m: seq<byte>, c: Ctx, k: nat, kind: byte, sym: nat) {
    var r := c.rel0 + k * c.relEnt;
    && k < c.Count() && r + 8 <= |m| && m[r + 4] == kind
    && (var b0: int, b1: int, b2: int := m[r + 5], m[r + 6], m[r + 7]; sym == b0 + 0x100 * b1 + 0x1_0000 * b2)
  }

  /** ... and the place w where the eight bytes at its offset are mapped. */
  predicate Slot(m: seq<byte>, c: Ctx, k: nat, kind: byte, sym: nat, w: nat) {
    Entry8(m, c, k, kind, sym) && w == RtN(c.es, Word(m, c.rel0 + k * c.relEnt), 8) && w != 0
  }

  /** The 16 bytes of the symbol are mapped at s, and its section is not SHN_UNDEF. */
  predicate SymbolAt(m: seq<byte>, c: Ctx, sym: nat, s: nat) {
    && c.symV != 0 && s == RtN(c.es, c.symV + 16 * sym, 16) && s != 0 && s + 16 <= |m|
    && !(m[s + 14] == 0 && m[s + 15] == 0)
  }

  lemma InfoBytes(m: seq<byte>, r: nat)
    requires r + 8 <= |m|
    ensures var b0: int, b1: int, b2: int := m[r + 5], m[r + 6], m[r + 7];
            RelocIn(m, r).kind == m[r + 4] && RelocIn(m, r).sym == b0 + 0x100 * b1 + 0x1_0000 * b2
  {
    var b0: int, b1: int, b2: int, b3: int := m[r + 4], m[r + 5], m[r + 6], m[r + 7];
    DivUnique(Word(m, r + 4), 0x100, b1 + 0x100 * b2 + 0x1_0000 * b3, b0);
  }

  lemma EntryReads(m: seq<byte>, c: Ctx, k: nat, kind: byte, sym: nat)
    requires Good(c, |m|) && k < c.Count()
    ensures Entry8(m, c, k, kind, sym) <==> At(m, c, k).kind == kind && At(m, c, k).sym == sym
    ensures c.RelAt(k) + 8 <= |m| && At(m, c, k).off == Word(m, c.RelAt(k))
  {
    EntryFits(c, |m|, k);
    InfoBytes(m, c.RelAt(k));
  }

  lemma SlotReads(m: seq<byte>, c: Ctx, k: nat, kind: byte, sym: nat, w: nat)
    requires Good(c, |m|) && Slot(m, c, k, kind, sym, w)
    ensures Hits(m, c, k) && At(m, c, k).kind == kind && At(m, c, k).sym == sym && Where(m, c, k) == w
    ensures w + 8 <= |m|
  {
    hide Word, Good, RtN;
    EntryReads(m, c, k, kind, sym);
    Patches(c, |m|, At(m, c, k).off);
  }

  lemma SymbolReads(m: seq<byte>, c: Ctx, sym: nat, s: nat)
    requires Good(c, |m|) && SymbolAt(m, c, sym, s)
    ensures Defined(m, c, sym) && SymAt(c, sym) == s && s + 16 <= |m|
  {
    hide Word, Good, RtN;
    Bounded(c, |m|, c.symV + sym * 16, 16);
  }

  /** A FUNCDESC_VALUE slot of a defined symbol: the binding in the top half of st_info decides. For a
      local symbol the function is st_value plus the word the slot held, for any other symbol it is
      st_value whatever the slot held; the second word is the GOT. */
  lemma ValueSlot(m: seq<byte>, n: seq<byte>, c: Ctx, used: nat, k: nat, sym: nat, w: nat, s: nat)
    requires Good(c, |m|) && Clean(m, c) && Relocated(m, n, c, used)
    requires Slot(m, c, k, 164, sym, w) && SymbolAt(m, c, sym, s)
    ensures w + 8 <= |m| == |n| && Word(n, w + 4) == c.got
    ensures m[s + 12] < 16 ==> Word(n, w) == Rt(c.es, (Word(m, s + 4) + Word(m, w)) % TWO32)
    ensures m[s + 12] >= 16 ==> Word(n, w) == Rt(c.es, Word(m, s + 4))
  {
    hide Word, Good, Clean, Relocated, Rt, RtN, At, Where, Hits, Defined, ValueOf, AddendOf, SymAt, Slot, Entry8;
    SameLength(m, n, c, used);
    SlotReads(m, c, k, 164, sym, w);
    SymbolReads(m, c, sym, s);
    RelocatedWord(m, n, c, used, k);
    ValueReads(m, c, sym, w, s);
  }

  lemma ValueReads(m: seq<byte>, c: Ctx, sym: nat, w: nat, s: nat)
    requires Good(c, |m|) && Defined(m, c, sym) && SymAt(c, sym) == s && w + 4 <= |m| && s + 16 <= |m|
    ensures ValueOf(m, c, sym, w) == if m[s + 12] < 16 then (Word(m, s + 4) + Word(m, w)) % TWO32 else Word(m, s + 4)
  {
    hide Good, Word;
    var x: int := m[s + 12];
    assert x / 16 == 0 <==> x < 16;
  }

  lemma DefinedReads(m: seq<byte>, c: Ctx, sym: nat)
    requires Good(c, |m|) && Defined(m, c, sym)
    ensures SymbolAt(m, c, sym, SymAt(c, sym))
  {
    hide Good, Word, RtN;
    Bounded(c, |m|, c.symV + sym * 16, 16);
  }

  lemma SameLength(m: seq<byte>, n: seq<byte>, c: Ctx, used: nat)
    requires Good(c, |m|) && Relocated(m, n, c, used)
    ensures |n| == |m|
  {
  }

  /** A slot whose symbol is undefined or not mapped is null. */
  lemma UndefinedSlot(m: seq<byte>, n: seq<byte>, c: Ctx, used: nat, k: nat, kind: byte, sym: nat, w: nat)
    requires Good(c, |m|) && Clean(m, c) && Relocated(m, n, c, used) && kind in {163, 164}
    requires Slot(m, c, k, kind, sym, w) && forall s :: !SymbolAt(m, c, sym, s)
    ensures w + 8 <= |m| == |n| && Word(n, w) == 0 && (kind == 164 ==> Word(n, w + 4) == 0)
  {
    hide Word, Good, Clean, Relocated, Rt, RtN, At, Where, Hits, Defined, ValueOf, AddendOf, SymAt, Slot, Entry8;
    SameLength(m, n, c, used);
    SlotReads(m, c, k, kind, sym, w);
    if Defined(m, c, sym) { DefinedReads(m, c, sym); }
    RelocatedWord(m, n, c, used, k);
  }

  lemma {:induction false} FirstMatch(m: seq<byte>, c: Ctx, sym: nat, j: nat, p: nat)
    requires Good(c, |m|) && j <= p <= c.Count() && forall i :: j <= i < p ==> !Entry8(m, c, i, 164, sym)
    requires p == c.Count() || Entry8(m, c, p, 164, sym)
    ensures MatchFrom(m, c, sym, j) == p
    decreases p - j
  {
    hide Good, Word, At, Entry8;
    if j < c.Count() { EntryReads(m, c, j, 164, sym); }
    if j < p { FirstMatch(m, c, sym, j + 1, p); }
  }

  /** A FUNCDESC slot of a defined symbol that has no FUNCDESC_VALUE entry: it points into the pool, at
      {st_value plus the word the slot held, GOT}. */
  lemma FreshDescriptor(m: seq<byte>, n: seq<byte>, c: Ctx, used: nat, k: nat, sym: nat, w: nat, s: nat)
    requires Good(c, |m|) && Clean(m, c) && Relocated(m, n, c, used)
    requires Slot(m, c, k, 163, sym, w) && SymbolAt(m, c, sym, s)
    requires forall i :: 0 <= i < c.Count() ==> !Entry8(m, c, i, 164, sym)
    ensures w + 8 <= |m| == |n|
    ensures var d := Word(n, w);
            && c.pool <= d && d + 8 <= c.pool + used && d + 8 <= |n|
            && Word(n, d) == Rt(c.es, (Word(m, s + 4) + Word(m, w)) % TWO32) && Word(n, d + 4) == c.got
  {
    hide Word, Good, Clean, Rt, RtN, At, Confined, MapStored, Entry8, Slot, Where, Defined, AddendOf, SymbolAt, SymAt,
        Kept, MatchFrom, ValueOf;
    SlotReads(m, c, k, 163, sym, w);
    SymbolReads(m, c, sym, s);
    FirstMatch(m, c, sym, 0, c.Count());
    assert Done(m, n, c, k, used);
    AddendReads(m, c, sym, w, s);
  }

  /** A FUNCDESC slot of a defined symbol with a FUNCDESC_VALUE entry: it holds the address of the slot
      of the first one, which ends as ValueSlot says. */
  lemma SharedDescriptor(m: seq<byte>, n: seq<byte>, c: Ctx, used: nat, k: nat, sym: nat, w: nat, s: nat,
                         p: nat, x: nat)
    requires Good(c, |m|) && Clean(m, c) && Relocated(m, n, c, used)
    requires Slot(m, c, k, 163, sym, w) && SymbolAt(m, c, sym, s) && Slot(m, c, p, 164, sym, x)
    requires forall i :: 0 <= i < p ==> !Entry8(m, c, i, 164, sym)
    ensures w + 8 <= |m| == |n| && Word(n, w) == x
  {
    hide Word, Good, Clean, Rt, RtN, At, Confined, MapStored, Entry8, Slot, Where, Defined, AddendOf, SymbolAt, SymAt,
        Kept, MatchFrom, ValueOf;
    SlotReads(m, c, k, 163, sym, w);
    SlotReads(m, c, p, 164, sym, x);
    SymbolReads(m, c, sym, s);
    EntryReads(m, c, p, 164, sym);
    FirstMatch(m, c, sym, 0, p);
    ShareTarget(m, c, p);
    assert Done(m, n, c, k, used);
  }
}
