/** The whole relocation walk: what it never touches, and what every patched word ends as. */
module RelocWalk {
  import opened Bytes
  import opened Elf
  import opened Fdpic
  import opened Loadmap
  import opened Reloc

  // ---- the places a relocation involves --------------------------------------------------

  function Wide(m: seq<byte>, c: Ctx, k: nat): nat
    requires Good(c, |m|) && k < c.Count()
  {
    Width(At(m, c, k))
  }

  /** [a, a + x) and [b, b + y) have no byte in common. */
  predicate Apart(a: nat, x: nat, b: nat, y: nat) { x == 0 || y == 0 || a + x <= b || b + y <= a }

  /** Relocation k is applied: eight bytes are mapped at its offset. */
  predicate Hits(m: seq<byte>, c: Ctx, k: int)
    requires Good(c, |m|)
  {
    0 <= k < c.Count() && Where(m, c, k) != 0
  }

  /** The targets written do not overlap each other, the relocation table, or the symbols the
      relocations name. */
  ghost predicate Clean(m: seq<byte>, c: Ctx)
    requires Good(c, |m|)
  {
    && (forall k :: Hits(m, c, k) ==> Apart(Where(m, c, k), Wide(m, c, k), c.rel0, c.relSz))
    && (forall j, k :: Hits(m, c, j) && Hits(m, c, k) && j != k ==>
                         Apart(Where(m, c, j), Wide(m, c, j), Where(m, c, k), Wide(m, c, k)))
    && (forall j, k :: Hits(m, c, j) && 0 <= k < c.Count() && SymAt(c, At(m, c, k).sym) != 0 ==>
                         Apart(Where(m, c, j), Wide(m, c, j), SymAt(c, At(m, c, k).sym), 16))
  }

  /** Some relocation writes byte a. */
  ghost predicate Target(m: seq<byte>, c: Ctx, a: nat)
    requires Good(c, |m|)
  {
    exists k :: Hits(m, c, k) && Where(m, c, k) <= a < Where(m, c, k) + Wide(m, c, k)
  }

  /** Nothing but targets and the first u bytes of the pool differs. */
  ghost predicate Kept(m: seq<byte>, n: seq<byte>, c: Ctx, u: nat)
    requires Good(c, |m|)
  {
    |n| == |m| && forall a :: 0 <= a < |m| && !Target(m, c, a) && !(c.pool <= a < c.pool + u) ==> n[a] == m[a]
  }

  /** A FUNCDESC of this symbol uses the slot of a FUNCDESC_VALUE. */
  predicate Shares(m: seq<byte>, c: Ctx, sym: int)
    requires Good(c, |m|)
  {
    var p := MatchFrom(m, c, sym, 0);
    p < c.Count() && Rt(c.es, At(m, c, p).off) != 0
  }

  /** What the word or words of relocation k hold once it has been applied; m is the memory right
      after placement. */
  ghost predicate Done(m: seq<byte>, n: seq<byte>, c: Ctx, k: nat, u: nat)
    requires Good(c, |m|) && k < c.Count() && |n| == |m| && Where(m, c, k) != 0
  {
    var r, w := At(m, c, k), Where(m, c, k);
    Patches(c, |m|, r.off);
    if r.kind == R_RELATIVE || r.kind == R_ABS32 then Word(n, w) == Rt(c.es, Word(m, w))
    else if r.kind == R_FUNCDESC_VALUE then
      && Word(n, w) == (if Defined(m, c, r.sym) then Rt(c.es, ValueOf(m, c, r.sym, w)) else 0)
      && Word(n, w + 4) == (if Defined(m, c, r.sym) then c.got else 0)
    else if r.kind == R_FUNCDESC then
      if !Defined(m, c, r.sym) then Word(n, w) == 0
      else if Shares(m, c, r.sym) then Word(n, w) == Rt(c.es, At(m, c, MatchFrom(m, c, r.sym, 0)).off)
      else
        var d := Word(n, w);
        && c.pool <= d && d + 8 <= c.pool + u && d + 8 <= |n|
        && Word(n, d) == Rt(c.es, AddendOf(m, c, r.sym, w)) && Word(n, d + 4) == c.got
    else true
  }

  /** The state of a clean walk before relocation j: m right after placement, n now. */
  ghost predicate Progress(m: seq<byte>, n: seq<byte>, c: Ctx, j: nat, u: nat)
    requires Good(c, |m|) && |n| == |m| && Clean(m, c)
  {
    && Agree(m, n, c.rel0, c.rel0 + c.relSz)
    && (forall k :: 0 <= k < c.Count() && SymAt(c, At(m, c, k).sym) != 0 ==>
                      Agree(m, n, SymAt(c, At(m, c, k).sym), SymAt(c, At(m, c, k).sym) + 16))
    && (forall k :: j <= k && Hits(m, c, k) ==> Agree(m, n, Where(m, c, k), Where(m, c, k) + Wide(m, c, k)))
    && (forall k :: k < j && Hits(m, c, k) ==> Done(m, n, c, k, u))
    && Kept(m, n, c, u)
  }

  // ---- reading the same tables ------------------------------------------------------------

  lemma SameReloc(m: seq<byte>, n: seq<byte>, c: Ctx, k: nat)
    requires Good(c, |m|) && |n| == |m| && k < c.Count() && Agree(m, n, c.rel0, c.rel0 + c.relSz)
    ensures At(n, c, k) == At(m, c, k)
  {
    hide Word, Good;
    EntryFits(c, |m|, k);
    WordFrame(m, n, c.RelAt(k));
    WordFrame(m, n, c.RelAt(k) + 4);
  }

  lemma {:induction false} SameMatch(m: seq<byte>, n: seq<byte>, c: Ctx, sym: int, j: nat)
    requires Good(c, |m|) && |n| == |m| && j <= c.Count() && Agree(m, n, c.rel0, c.rel0 + c.relSz)
    ensures MatchFrom(n, c, sym, j) == MatchFrom(m, c, sym, j)
    decreases c.Count() - j
  {
    hide Word, Good, At;
    if j < c.Count() {
      SameReloc(m, n, c, j);
      SameMatch(m, n, c, sym, j + 1);
    }
  }

  lemma SameSymbol(m: seq<byte>, n: seq<byte>, c: Ctx, sym: int, w: nat)
    requires Good(c, |m|) && |n| == |m| && 0 <= sym && w + 8 <= |m|
    requires SymAt(c, sym) != 0 ==> Agree(m, n, SymAt(c, sym), SymAt(c, sym) + 16)
    requires Agree(m, n, w, w + 4)
    ensures Defined(n, c, sym) == Defined(m, c, sym)
    ensures Defined(m, c, sym) ==>
        ValueOf(n, c, sym, w) == ValueOf(m, c, sym, w) && AddendOf(n, c, sym, w) == AddendOf(m, c, sym, w)
  {
    hide Word, Good;
    WordFrame(m, n, w);
    var s := SymAt(c, sym);
    if s != 0 {
      Bounded(c, |m|, c.symV + sym * 16, 16);
      WordFrame(m, n, s + 4);
    }
  }

  /** Applying relocation j where its own target is still untouched makes it done. */
  lemma StepDone(m: seq<byte>, n: seq<byte>, o: seq<byte>, c: Ctx, j: nat, u: nat, u': nat)
    requires Good(c, |m|) && |o| == |n| == |m| && j < c.Count() && Clean(m, c) && Progress(m, n, c, j, u)
    requires Effect(n, o, c, j, u, u') && Where(m, c, j) != 0
    ensures Done(m, o, c, j, u')
  {
    hide Word, Good, Rt, RtN, Defined, MatchFrom, ValueOf, AddendOf, SymAt;
    SameReloc(m, n, c, j);
    var r, w := At(m, c, j), Where(m, c, j);
    Patches(c, |m|, r.off);
    if Wide(m, c, j) > 0 {
      WordFrame(m, n, w);
      SameSymbol(m, n, c, r.sym, w);
    }
    if r.kind == R_FUNCDESC {
      SameMatch(m, n, c, r.sym, 0);
      var p := MatchFrom(m, c, r.sym, 0);
      if p < c.Count() { SameReloc(m, n, c, p); }
    }
  }

  lemma ShareTarget(m: seq<byte>, c: Ctx, p: nat)
    requires Good(c, |m|) && p < c.Count() && Where(m, c, p) != 0
    ensures Rt(c.es, At(m, c, p).off) == Where(m, c, p)
  {
    RtOfRtN(c.es, At(m, c, p).off, 8);
  }

  /** A finished relocation stays finished when later ones patch other places. */
  lemma KeepDone(m: seq<byte>, n: seq<byte>, o: seq<byte>, c: Ctx, k: nat, a: nat, x: nat, u: nat, u': nat)
    requires Good(c, |m|) && |o| == |n| == |m| && k < c.Count() && Where(m, c, k) != 0
    requires Done(m, n, c, k, u) && u <= u' <= 8 * c.Count() && Only(n, o, a, x, c.pool + u, u' - u)
    requires Apart(Where(m, c, k), Wide(m, c, k), a, x) && (x == 0 || a + x <= c.lm || c.pool + 8 * c.Count() <= a)
    ensures Done(m, o, c, k, u')
  {
    PoolRoom(c, |m|);
    hide Word, Good, Rt, RtN, Defined, MatchFrom, ValueOf, AddendOf, SymAt, At;
    var r, w := At(m, c, k), Where(m, c, k);
    Patches(c, |m|, r.off);
    if Wide(m, c, k) > 0 {
      WordFrame(n, o, w);
      if Wide(m, c, k) == 8 {
        WordFrame(n, o, w + 4);
      }
      if r.kind == R_FUNCDESC && Defined(m, c, r.sym) && !Shares(m, c, r.sym) {
        var d := Word(n, w);
        WordFrame(n, o, d);
        WordFrame(n, o, d + 4);
      }
    }
  }

  lemma AgreeFrame(m: seq<byte>, n: seq<byte>, o: seq<byte>, lo: nat, len: nat, a: nat, x: nat, b: nat, y: nat)
    requires Agree(m, n, lo, lo + len) && Only(n, o, a, x, b, y)
    requires Apart(a, x, lo, len) && Apart(b, y, lo, len)
    ensures Agree(m, o, lo, lo + len)
  {
  }

  /** Relocation j leaves the tables and every later target as they were. */
  lemma StepAgree(m: seq<byte>, n: seq<byte>, o: seq<byte>, c: Ctx, j: nat, u: nat, u': nat)
    requires Good(c, |m|) && |o| == |n| == |m| && j < c.Count() && Clean(m, c) && Progress(m, n, c, j, u)
    requires u <= u' <= 8 * c.Count() && Only(n, o, Where(m, c, j), Wide(m, c, j), c.pool + u, u' - u)
    requires PoolApart(m, c) && Where(m, c, j) != 0
    ensures Agree(m, o, c.rel0, c.rel0 + c.relSz)
    ensures forall k :: 0 <= k < c.Count() && SymAt(c, At(m, c, k).sym) != 0 ==>
                          Agree(m, o, SymAt(c, At(m, c, k).sym), SymAt(c, At(m, c, k).sym) + 16)
    ensures forall k :: j < k && Hits(m, c, k) ==> Agree(m, o, Where(m, c, k), Where(m, c, k) + Wide(m, c, k))
  {
    hide Word, Good, Rt, Done, At, SymAt, RtN, Clean, Only, Agree;
    var a, x := Where(m, c, j), Wide(m, c, j);
    CleanAt(m, c, j);
    AgreeFrame(m, n, o, c.rel0, c.relSz, a, x, c.pool + u, u' - u);
    forall k | 0 <= k < c.Count() && SymAt(c, At(m, c, k).sym) != 0
      ensures Agree(m, o, SymAt(c, At(m, c, k).sym), SymAt(c, At(m, c, k).sym) + 16)
    {
      CleanSym(m, c, j, k);
      AgreeFrame(m, n, o, SymAt(c, At(m, c, k).sym), 16, a, x, c.pool + u, u' - u);
    }
    forall k | j < k && Hits(m, c, k) ensures Agree(m, o, Where(m, c, k), Where(m, c, k) + Wide(m, c, k)) {
      CleanPair(m, c, j, k);
      AgreeFrame(m, n, o, Where(m, c, k), Wide(m, c, k), a, x, c.pool + u, u' - u);
    }
  }

  /** One more relocation of a clean walk is done, and none of the earlier ones is undone. */
  lemma StepProgress(m: seq<byte>, n: seq<byte>, o: seq<byte>, c: Ctx, j: nat, u: nat, u': nat)
    requires Good(c, |m|) && |o| == |n| == |m| && j < c.Count() && Clean(m, c) && Progress(m, n, c, j, u)
    requires u <= u' <= 8 * c.Count() && Effect(n, o, c, j, u, u')
    requires Only(n, o, Where(n, c, j), Width(At(n, c, j)), c.pool + u, u' - u)
    requires PoolApart(m, c)
    ensures Progress(m, o, c, j + 1, u')
  {
    SameReloc(m, n, c, j);
    if Where(m, c, j) == 0 {
      SkipProgress(m, n, c, j, u);
    } else {
      StepDone(m, n, o, c, j, u, u');
      hide Word, Good, Rt, Effect, Done, At, Defined, SymAt, RtN, Clean, Only, Agree, Kept;
      StepAgree(m, n, o, c, j, u, u');
      StepKept(m, n, o, c, j, u, u');
      CleanAt(m, c, j);
      forall k | k < j && Hits(m, c, k) ensures Done(m, o, c, k, u') {
        CleanPair(m, c, k, j);
        KeepDone(m, n, o, c, k, Where(m, c, j), Wide(m, c, j), u, u');
      }
    }
  }

  /** A relocation that is not applied changes nothing about the others. */
  lemma SkipProgress(m: seq<byte>, n: seq<byte>, c: Ctx, j: nat, u: nat)
    requires Good(c, |m|) && |n| == |m| && j < c.Count() && Clean(m, c) && Progress(m, n, c, j, u)
    requires Where(m, c, j) == 0
    ensures Progress(m, n, c, j + 1, u)
  {
    hide Good, Done, At, RtN, Clean, Agree, Kept, SymAt;
  }

  lemma StepKept(m: seq<byte>, n: seq<byte>, o: seq<byte>, c: Ctx, j: nat, u: nat, u': nat)
    requires Good(c, |m|) && Kept(m, n, c, u) && u <= u' && Hits(m, c, j)
    requires Only(n, o, Where(m, c, j), Wide(m, c, j), c.pool + u, u' - u)
    ensures Kept(m, o, c, u')
  {
    hide Good, At, RtN;
    forall a | 0 <= a < |m| && !Target(m, c, a) && !(c.pool <= a < c.pool + u') ensures o[a] == m[a] {
      assert !(Where(m, c, j) <= a < Where(m, c, j) + Wide(m, c, j));
    }
  }

  /** The relocation table and the symbols lie outside the descriptor pool. */
  ghost predicate PoolApart(m: seq<byte>, c: Ctx)
    requires Good(c, |m|)
  {
    Apart(c.pool, 8 * c.Count(), c.rel0, c.relSz)
  }

  lemma CleanAt(m: seq<byte>, c: Ctx, j: nat)
    requires Good(c, |m|) && Clean(m, c) && Hits(m, c, j)
    ensures Apart(Where(m, c, j), Wide(m, c, j), c.rel0, c.relSz)
    ensures Wide(m, c, j) <= 8
    ensures Where(m, c, j) + 8 <= c.lm || c.pool + 8 * c.Count() <= Where(m, c, j)
  {
    hide Good, At, RtN, Apart;
    Patches(c, |m|, At(m, c, j).off);
  }

  lemma CleanSym(m: seq<byte>, c: Ctx, j: nat, k: nat)
    requires Good(c, |m|) && Clean(m, c) && Hits(m, c, j) && k < c.Count() && SymAt(c, At(m, c, k).sym) != 0
    ensures Apart(Where(m, c, j), Wide(m, c, j), SymAt(c, At(m, c, k).sym), 16)
    ensures Apart(c.pool, 8 * c.Count(), SymAt(c, At(m, c, k).sym), 16)
  {
    PoolRoom(c, |m|);
    Bounded(c, |m|, c.symV + At(m, c, k).sym * 16, 16);
  }

  lemma CleanPair(m: seq<byte>, c: Ctx, j: nat, k: nat)
    requires Good(c, |m|) && Clean(m, c) && Hits(m, c, j) && Hits(m, c, k) && j != k
    ensures Apart(Where(m, c, j), Wide(m, c, j), Where(m, c, k), Wide(m, c, k))
    ensures Apart(c.pool, 8 * c.Count(), Where(m, c, k), Wide(m, c, k))
  {
    hide Good, At, RtN;
    PoolRoom(c, |m|);
    CleanAt(m, c, k);
  }

  // ---- the loop -------------------------------------------------------------------------------

  ghost predicate InSegment(c: Ctx, a: nat) {
    exists k :: 0 <= k < |c.es| && c.es[k].addr <= a < c.es[k].addr + c.es[k].msz
  }

  /** Only segment bytes and the first u bytes of the pool differ. */
  ghost predicate Confined(m: seq<byte>, n: seq<byte>, c: Ctx, u: nat) {
    |m| == |n| && forall a :: 0 <= a < |m| && !InSegment(c, a) && !(c.pool <= a < c.pool + u) ==> m[a] == n[a]
  }

  lemma StepConfined(m: seq<byte>, n: seq<byte>, o: seq<byte>, c: Ctx, j: nat, u: nat, u': nat)
    requires Good(c, |n|) && j < c.Count() && Confined(m, n, c, u) && u <= u'
    requires Only(n, o, Where(n, c, j), Width(At(n, c, j)), c.pool + u, u' - u) && (Where(n, c, j) == 0 ==> o == n)
    ensures Confined(m, o, c, u')
  {
    hide Word, Good, At;
    var w := Where(n, c, j);
    if w != 0 {
      var k := RtNInside(c.es, At(n, c, j).off, 8);
      forall a | w <= a < w + 8 ensures InSegment(c, a) {
        assert c.es[k].addr <= a < c.es[k].addr + c.es[k].msz;
      }
    }
  }

  lemma MapKept(m: seq<byte>, n: seq<byte>, c: Ctx, u: nat)
    requires Good(c, |m|) && MapStored(m, c) && Confined(m, n, c, u) && u <= 8 * c.Count()
    ensures MapStored(n, c)
  {
    hide Word;
    forall a | c.lm <= a < c.lm + 4 + 12 * |c.es| ensures m[a] == n[a] {
      assert !InSegment(c, a);
    }
    forall k | 0 <= k < |c.es| ensures EntryIn(n, c.lm, k) == EntryIn(m, c.lm, k) {
      WordFrame(m, n, c.lm + 4 + 12 * k);
      WordFrame(m, n, c.lm + 4 + 12 * k + 4);
      WordFrame(m, n, c.lm + 4 + 12 * k + 8);
    }
    assert Entries(n, c.lm, |c.es|) == Entries(m, c.lm, |c.es|);
  }

  /** The loop test on the byte cursor admits exactly the first Count relocations. */
  lemma GuardIff(c: Ctx, j: nat)
    requires c.relEnt > 0
    ensures c.RelAt(j) - c.rel0 + c.relEnt <= c.relSz <==> j < c.Count()
    ensures c.RelAt(j + 1) == c.RelAt(j) + c.relEnt
  {
    var n := c.relSz / c.relEnt;
    assert n * c.relEnt <= c.relSz < n * c.relEnt + c.relEnt;
    if j < n {
      assert (j + 1) * c.relEnt <= n * c.relEnt;
    } else {
      assert n * c.relEnt <= j * c.relEnt;
    }
  }

  lemma FirstRel(c: Ctx)
    ensures c.RelAt(0) == c.rel0
  {
  }

  lemma StartProgress(m: seq<byte>, c: Ctx)
    requires Good(c, |m|) && Clean(m, c)
    ensures Progress(m, m, c, 0, 0)
  {
  }

  lemma EndProgress(m: seq<byte>, n: seq<byte>, c: Ctx, u: nat)
    requires Good(c, |m|) && |n| == |m| && Clean(m, c) && Progress(m, n, c, c.Count(), u)
    ensures Kept(m, n, c, u) && forall k :: Hits(m, c, k) ==> Done(m, n, c, k, u)
  {
    hide Done, Good, At, RtN;
  }

  lemma SelfConfined(m: seq<byte>, c: Ctx)
    ensures Confined(m, m, c, 0)
  {
  }

  /** Where the loop stands after j relocations, u bytes of the descriptor pool used. */
  ghost predicate Turned(m: seq<byte>, n: seq<byte>, c: Ctx, j: nat, u: nat)
    requires Good(c, |m|)
  {
    && u <= 8 * j && Confined(m, n, c, u) && MapStored(n, c)
    && (Clean(m, c) ==> Progress(m, n, c, j, u))
  }

  /** One turn of the loop. */
  method Turn(mem: array<byte>, c: Ctx, r: nat, ghost j: nat, used: nat, ghost m: seq<byte>) returns (used': nat)
    requires |m| == mem.Length && Good(c, |m|) && PoolApart(m, c) && MapStored(m, c)
    requires j < c.Count() && r == c.RelAt(j) && Turned(m, mem[..], c, j, used)
    modifies mem
    ensures Turned(m, mem[..], c, j + 1, used')
  {
    hide Good, MapStored, Confined, Progress, Effect, Word, At, RtN, Clean, Done, Only, Where;
    ghost var n := mem[..];
    used' := Apply(mem, c, r, j, used);
    StepConfined(m, n, mem[..], c, j, used, used');
    MapKept(m, mem[..], c, used');
    if Clean(m, c) { StepProgress(m, n, mem[..], c, j, used, used'); }
  }

  /** The relocation loop of lxp_loader_load_fdpic. */
  method Walk(mem: array<byte>, c: Ctx) returns (used: nat)
    requires MapStored(mem[..], c) && Good(c, mem.Length) && PoolApart(mem[..], c)
    modifies mem
    ensures used <= 8 * c.Count() && Confined(old(mem[..]), mem[..], c, used) && MapStored(mem[..], c)
    ensures Clean(old(mem[..]), c) ==>
              && Kept(old(mem[..]), mem[..], c, used)
              && forall k :: Hits(old(mem[..]), c, k) ==> Done(old(mem[..]), mem[..], c, k, used)
  {
    ghost var m := mem[..];
    if Clean(m, c) { StartProgress(m, c); }
    SelfConfined(m, c);
    assert c.relEnt > 0;
    used := 0;
    var o := 0;
    ghost var j := 0;
    hide Good, MapStored, Confined, Progress, Word, At, RtN, Clean, Done, Where, PoolApart, Ctx.Count, Ctx.RelAt,
        Kept, Hits;
    FirstRel(c);
    while o + c.relEnt <= c.relSz
      invariant 0 <= j <= c.Count() && c.rel0 + o == c.RelAt(j)
      invariant Turned(m, mem[..], c, j, used)
      decreases c.Count() - j
    {
      GuardIff(c, j);
      used := Turn(mem, c, c.rel0 + o, j, used, m);
      o := o + c.relEnt;
      j := j + 1;
    }
    GuardIff(c, j);
    if Clean(m, c) { EndProgress(m, mem[..], c, used); }
  }
}
