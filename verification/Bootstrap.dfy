/** Building the startup block at the top of a guest stack in memory. */
module Bootstrap {
  import opened Bytes
  import opened Startup

  const MAXARGS := 64
  const MAXENVS := 32

  /** The scalars that go into the auxiliary vector. */
  datatype Info = Info(phdr: uint32, phnum: int, entry: uint32, base: uint32)

  // ---- geometry ------------------------------------------------------------------------------

  function AlignDown8(x: int): (r: int)
    ensures r % 8 == 0 && x - 8 < r <= x
  {
    x - x % 8
  }

  /** Header words of either form. */
  function HeaderWords(fdpic: bool, argc: nat, envc: nat): nat {
    if fdpic then 1 + argc + 1 + envc + 1 + 16 else 3 + argc + 1 + envc + 1 + 6
  }

  function ArgsAt(top: int, argv: seq<seq<byte>>, envp: seq<seq<byte>>): int { top - |Flat(argv)| - |Flat(envp)| }

  function HeaderAt(top: int, fdpic: bool, argv: seq<seq<byte>>, envp: seq<seq<byte>>): int {
    AlignDown8(ArgsAt(top, argv, envp) - 16 - 4 * HeaderWords(fdpic, |argv|, |envp|))
  }

  /** When there is a block at all: counts within the limits, room for the strings, the seed and
      the header, and a seed. */
  predicate Fits(stack: nat, size: nat, argc: int, argv: seq<seq<byte>>, envp: seq<seq<byte>>, fdpic: bool,
                 seeded: bool) {
    && stack > 0 && 0 <= argc <= MAXARGS && argc <= |argv| && |envp| <= MAXENVS
    && HeaderAt(stack + size, fdpic, argv[..argc], envp) >= stack
    && seeded
  }

  function AuxOf(fdpic: bool, info: Info, random: uint32): (aux: seq<Aux>)
    ensures Kinds(aux) && |aux| == if fdpic then 7 else 2
  {
    if fdpic
    then [Aux(AT_PHDR, info.phdr), Aux(AT_PHENT, 32), Aux(AT_PHNUM, info.phnum % TWO32), Aux(AT_BASE, info.base),
          Aux(AT_ENTRY, info.entry), Aux(AT_PAGESZ, 4096), Aux(AT_RANDOM, random)]
    else [Aux(AT_PAGESZ, 4096), Aux(AT_RANDOM, random)]
  }

  // ---- the two string loops ------------------------------------------------------------------

  lemma FlatNext(vec: seq<seq<byte>>, i: nat)
    requires i < |vec|
    ensures Flat(vec[..i + 1]) == Flat(vec[..i]) + vec[i] + [0]
  {
    assert vec[..i + 1][..i] == vec[..i];
  }

  lemma {:induction false} FlatGrows(vec: seq<seq<byte>>, i: nat)
    requires i <= |vec|
    ensures |Flat(vec[..i])| <= |Flat(vec)|
    decreases |vec| - i
  {
    if i == |vec| {
      assert vec[..i] == vec;
    } else {
      FlatNext(vec, i);
      FlatGrows(vec, i + 1);
    }
  }

  /** m holds x from a on and y right after it. */
  lemma PasteNext(m: seq<byte>, n: seq<byte>, a: nat, x: seq<byte>, y: seq<byte>)
    requires a + |x| + |y| <= |m| && m[a..a + |x|] == x
    requires AgreeOutside(m, n, a + |x|, a + |x| + |y|) && n[a + |x|..a + |x| + |y|] == y
    ensures n[a..a + |x| + |y|] == x + y
  {
    assert n[a..a + |x|] == m[a..a + |x|];
    assert n[a..a + |x| + |y|] == n[a..a + |x|] + n[a + |x|..a + |x| + |y|];
  }

  lemma Outside2(a: seq<byte>, b: seq<byte>, c: seq<byte>, lo: int, mid: int, hi: int)
    requires AgreeOutside(a, b, lo, mid) && AgreeOutside(b, c, mid, hi) && lo <= mid <= hi
    ensures AgreeOutside(a, c, lo, hi)
  {
  }

  method CopyStrings(mem: array<byte>, at: nat, vec: seq<seq<byte>>) returns (end: nat)
    requires at + |Flat(vec)| <= mem.Length
    modifies mem
    ensures end == at + |Flat(vec)|
    ensures mem[at..end] == Flat(vec) && AgreeOutside(old(mem[..]), mem[..], at, end)
  {
    hide Flat, AgreeOutside;
    var i := 0;
    end := at;
    assert vec[..0] == [] && Flat([]) == [] by { EmptyFlat(); }
    Same(mem[..], at, at);
    while i < |vec|
      invariant 0 <= i <= |vec| && end == at + |Flat(vec[..i])| && end <= mem.Length
      invariant mem[..][at..end] == Flat(vec[..i]) && AgreeOutside(old(mem[..]), mem[..], at, end)
    {
      FlatNext(vec, i);
      FlatGrows(vec, i + 1);
      ghost var m := mem[..];
      var s := vec[i] + [0];
      Paste(mem, end, s);
      assert mem[..][end..end + |s|] == s;
      PasteNext(m, mem[..], at, Flat(vec[..i]), s);
      Outside2(old(mem[..]), m, mem[..], at, end, end + |s|);
      assert Flat(vec[..i]) + s == Flat(vec[..i]) + vec[i] + [0];
      end := end + |s|;
      i := i + 1;
    }
    assert vec[..i] == vec;
    assert mem[at..end] == mem[..][at..end];
  }

  lemma EmptyFlat()
    ensures Flat([]) == []
  {
  }

  lemma Same(m: seq<byte>, lo: int, hi: int)
    ensures AgreeOutside(m, m, lo, hi)
  {
  }

  /** strlen. */
  method StringLength(mem: array<byte>, a: nat, ghost s: seq<byte>) returns (n: nat)
    requires a + |s| < mem.Length && mem[a..a + |s|] == s && mem[a + |s|] == 0 && Plain(s)
    ensures n == |s|
  {
    n := 0;
    assert forall i :: 0 <= i < |s| ==> mem[a + i] == s[i];
    while mem[a + n] != 0
      invariant n <= |s|
      decreases |s| - n
    {
      n := n + 1;
    }
  }

  method StoreWords(mem: array<byte>, a: nat, ws: seq<uint32>)
    requires a + 4 * |ws| <= mem.Length
    modifies mem
    ensures WordsAt(mem[..], a, ws) && AgreeOutside(old(mem[..]), mem[..], a, a + 4 * |ws|)
  {
    hide Word, AgreeOutside, WordsAt;
    var i := 0;
    NoWords(mem[..], a);
    assert ws[..0] == [];
    Same(mem[..], a, a);
    while i < |ws|
      invariant 0 <= i <= |ws| && WordsAt(mem[..], a, ws[..i]) && AgreeOutside(old(mem[..]), mem[..], a, a + 4 * i)
    {
      ghost var m := mem[..];
      StoreWord(mem, a + 4 * i, ws[i]);
      OneMore(old(mem[..]), m, mem[..], a, ws[..i], ws[i]);
      assert ws[..i + 1] == ws[..i] + [ws[i]];
      i := i + 1;
    }
    assert ws[..i] == ws;
  }

  lemma NoWords(m: seq<byte>, a: nat)
    requires a <= |m|
    ensures WordsAt(m, a, [])
  {
  }

  /** Storing the next word keeps the ones before it. */
  lemma OneMore(o: seq<byte>, m: seq<byte>, n: seq<byte>, a: nat, ws: seq<int>, w: int)
    requires WordsAt(m, a, ws) && Stored(m, n, a + 4 * |ws|, w) && AgreeOutside(o, m, a, a + 4 * |ws|)
    ensures WordsAt(n, a, ws + [w]) && AgreeOutside(o, n, a, a + 4 * (|ws| + 1))
  {
    WordsFrame(m, n, a, ws);
    var x: seq<int> := [w];
    assert Word(n, a + 4 * |ws| + 4 * 0) == x[0];
    WordsJoin(n, a, ws, x);
  }

  method PointStrings(mem: array<byte>, out: nat, at: nat, ghost vec: seq<seq<byte>>, count: nat)
    requires count == |vec| && out + 4 * count <= at && at + |Flat(vec)| <= mem.Length <= TWO32
    requires mem[at..at + |Flat(vec)|] == Flat(vec) && forall k :: 0 <= k < |vec| ==> Plain(vec[k])
    modifies mem
    ensures WordsAt(mem[..], out, Addresses(at, vec)) && AgreeOutside(old(mem[..]), mem[..], out, out + 4 * count)
  {
    hide Word, AgreeOutside, WordsAt, Flat, Addresses;
    var i, a := 0, at;
    NoWords(mem[..], out);
    EmptyFlat();
    assert vec[..0] == [] && Addresses(at, vec)[..0] == [];
    Same(mem[..], out, out);
    while i < count
      invariant 0 <= i <= count && a == at + |Flat(vec[..i])|
      invariant WordsAt(mem[..], out, Addresses(at, vec)[..i])
      invariant AgreeOutside(old(mem[..]), mem[..], out, out + 4 * i)
    {
      ghost var m := mem[..];
      AboveSame(old(mem[..]), m, out, out + 4 * i, at, at + |Flat(vec)|);
      StringHere(m, at, vec, i);
      FlatNext(vec, i);
      var n := StringLength(mem, a, vec[i]);
      StoreWord(mem, out + 4 * i, a);
      ghost var ws := Addresses(at, vec);
      OneMore(old(mem[..]), m, mem[..], out, ws[..i], ws[i]);
      assert ws[..i + 1] == ws[..i] + [ws[i]];
      a := a + n + 1;
      i := i + 1;
    }
    assert Addresses(at, vec)[..i] == Addresses(at, vec);
  }

  lemma AboveSame(m: seq<byte>, n: seq<byte>, lo: int, hi: int, a: nat, b: nat)
    requires AgreeOutside(m, n, lo, hi) && hi <= a <= b <= |m|
    ensures n[a..b] == m[a..b]
  {
  }

  /** bytes: the room the strings take. */
  method TotalBytes(vec: seq<seq<byte>>) returns (n: nat)
    ensures n == |Flat(vec)|
  {
    hide Flat;
    EmptyFlat();
    n := 0;
    var i := 0;
    assert vec[..0] == [];
    while i < |vec|
      invariant 0 <= i <= |vec| && n == |Flat(vec[..i])|
    {
      FlatNext(vec, i);
      n := n + |vec[i]| + 1;
      i := i + 1;
    }
    assert vec[..i] == vec;
  }

  // ---- the header ----------------------------------------------------------------------------

  /** More words after those already there. */
  lemma MoreWords(o: seq<byte>, m: seq<byte>, n: seq<byte>, a: nat, x: seq<int>, y: seq<int>)
    requires WordsAt(m, a, x) && AgreeOutside(o, m, a, a + 4 * |x|)
    requires WordsAt(n, a + 4 * |x|, y) && AgreeOutside(m, n, a + 4 * |x|, a + 4 * |x| + 4 * |y|)
    ensures WordsAt(n, a, x + y) && AgreeOutside(o, n, a, a + 4 * |x + y|)
  {
    WordsFrame(m, n, a, x);
    WordsJoin(n, a, x, y);
  }

  /** One pointer vector with its null, after the words x already at a. */
  method AddVector(mem: array<byte>, a: nat, ghost o: seq<byte>, ghost x: seq<int>, next: nat, at: nat,
                   vec: seq<seq<byte>>)
    requires WordsAt(mem[..], a, x) && AgreeOutside(o, mem[..], a, a + 4 * |x|) && next == a + 4 * |x|
    requires next + 4 * (|vec| + 1) <= at && at + |Flat(vec)| <= mem.Length <= TWO32
    requires mem[at..at + |Flat(vec)|] == Flat(vec) && forall k :: 0 <= k < |vec| ==> Plain(vec[k])
    modifies mem
    ensures WordsAt(mem[..], a, x + (Addresses(at, vec) + [0]))
    ensures AgreeOutside(o, mem[..], a, next + 4 * (|vec| + 1))
  {
    hide Word, AgreeOutside, WordsAt, Flat, Addresses;
    ghost var m := mem[..];
    PointStrings(mem, next, at, vec, |vec|);
    MoreWords(o, m, mem[..], a, x, Addresses(at, vec));
    m := mem[..];
    StoreWords(mem, next + 4 * |vec|, [0]);
    MoreWords(o, m, mem[..], a, x + Addresses(at, vec), [0]);
    assert x + Addresses(at, vec) + [0] == x + (Addresses(at, vec) + [0]);
  }

  method WriteHeader(mem: array<byte>, sp: nat, head: seq<uint32>, args: nat, argv: seq<seq<byte>>,
                     envs: nat, envp: seq<seq<byte>>, aux: seq<Aux>)
    requires sp + 4 * (|head| + |argv| + 1 + |envp| + 1 + 2 * |aux| + 2) <= args && mem.Length <= TWO32
    requires StringsAt(mem[..], args, argv, envs, envp)
    modifies mem
    ensures WordsAt(mem[..], sp, Header(head, args, argv, envs, envp, aux))
    ensures AgreeOutside(old(mem[..]), mem[..], sp, sp + 4 * (|head| + |argv| + 1 + |envp| + 1 + 2 * |aux| + 2))
  {
    hide Word, AgreeOutside, WordsAt, Flat, Addresses, Plain, Pairs;
    ghost var o := mem[..];
    StoreWords(mem, sp, head);
    AboveStrings(o, mem[..], sp, sp + 4 * |head|, args, argv, envs, envp);
    AddVector(mem, sp, o, head, sp + 4 * |head|, args, argv);
    ghost var x := head + (Addresses(args, argv) + [0]);
    AboveStrings(o, mem[..], sp, sp + 4 * |x|, args, argv, envs, envp);
    AddVector(mem, sp, o, x, sp + 4 * |head| + 4 * (|argv| + 1), envs, envp);
    ghost var y := x + (Addresses(envs, envp) + [0]);
    ghost var m := mem[..];
    StoreWords(mem, sp + 4 * |head| + 4 * (|argv| + 1) + 4 * (|envp| + 1), Pairs(aux) + [0, 0]);
    MoreWords(o, m, mem[..], sp, y, Pairs(aux) + [0, 0]);
  }

  lemma AboveStrings(m: seq<byte>, n: seq<byte>, lo: int, hi: int, args: nat, argv: seq<seq<byte>>, envs: nat,
                     envp: seq<seq<byte>>)
    requires AgreeOutside(m, n, lo, hi) && hi <= args && StringsAt(m, args, argv, envs, envp)
    ensures StringsAt(n, args, argv, envs, envp)
  {
    StringsFrame(m, n, args, argv, envs, envp);
  }

  // ---- the whole block -----------------------------------------------------------------------

  /** A finished block: aligned, inside the stack, header below seed below strings without overlap,
      and read back by the C runtime as exactly what was asked for. */
  ghost predicate Started(m: seq<byte>, sp: nat, stack: nat, size: nat, argv: seq<seq<byte>>, envp: seq<seq<byte>>,
                          fdpic: bool,
                          info: Info, seed: seq<byte>)
  {
    var args := ArgsAt(stack + size, argv, envp);
    var words := HeaderWords(fdpic, |argv|, |envp|);
    && sp % 8 == 0 && stack <= sp && sp + 4 * words <= args - 16 < sp + 4 * words + 8 && args <= |m| <= TWO32
    && m[args - 16..args] == seed
    && (if fdpic then ReadFdpic(m, sp) else ReadFlat(m, sp)) == Block(|argv|, argv, envp, AuxOf(fdpic, info, args - 16))
  }

  /** The header is as long as what it holds: argc, two more words for bFLT, two vectors with their null
      pointers, and the pairs with the null pair. */
  lemma HeaderExact(fdpic: bool, argv: seq<seq<byte>>, envp: seq<seq<byte>>, info: Info, random: uint32)
    ensures HeaderWords(fdpic, |argv|, |envp|) ==
            (if fdpic then 1 else 3) + (|argv| + 1) + (|envp| + 1) + 2 * (|AuxOf(fdpic, info, random)| + 1)
  {
  }

  /** getauxval over the pairs read back: the value of the first pair of this kind. */
  function Lookup(aux: seq<Aux>, kind: uint32): Option<uint32> {
    if aux == [] then None else if aux[0].kind == kind then Some(aux[0].value) else Lookup(aux[1..], kind)
  }

  /** What a started program finds in its auxiliary vector, kind by kind: the program headers, the
      interpreter's base and the entry point for FDPIC, the page size, and the address of the 16
      random bytes; nothing under any other kind. */
  lemma AuxFound(m: seq<byte>, sp: nat, stack: nat, size: nat, argv: seq<seq<byte>>, envp: seq<seq<byte>>, fdpic: bool,
                 info: Info, seed: seq<byte>, kind: uint32)
    requires |seed| == 16 && Started(m, sp, stack, size, argv, envp, fdpic, info, seed)
    ensures var aux := (if fdpic then ReadFdpic(m, sp) else ReadFlat(m, sp)).auxv;
            && Lookup(aux, 6) == Some(4096)
            && (var a := Lookup(aux, 25); a.Some? && a.value + 16 <= |m| && m[a.value..a.value + 16] == seed)
            && (fdpic ==> Lookup(aux, 3) == Some(info.phdr) && Lookup(aux, 4) == Some(32)
                          && Lookup(aux, 5) == Some(info.phnum % TWO32) && Lookup(aux, 7) == Some(info.base)
                          && Lookup(aux, 9) == Some(info.entry))
            && (kind !in (if fdpic then {3, 4, 5, 6, 7, 9, 25} else {6, 25}) ==> Lookup(aux, kind) == None)
  {
    hide ReadFdpic, ReadFlat, Flat, Lookup;
    var aux := AuxOf(fdpic, info, ArgsAt(stack + size, argv, envp) - 16);
    if fdpic {
      LookupAt(aux, 0);
      LookupAt(aux, 1);
      LookupAt(aux, 2);
      LookupAt(aux, 3);
      LookupAt(aux, 4);
      LookupAt(aux, 5);
      LookupAt(aux, 6);
    } else {
      LookupAt(aux, 0);
      LookupAt(aux, 1);
    }
    LookupNone(aux, kind);
  }

  lemma {:induction false} LookupAt(aux: seq<Aux>, i: nat)
    requires i < |aux| && forall j :: 0 <= j < i ==> aux[j].kind != aux[i].kind
    ensures Lookup(aux, aux[i].kind) == Some(aux[i].value)
  {
    if i > 0 { LookupAt(aux[1..], i - 1); }
  }

  lemma {:induction false} LookupNone(aux: seq<Aux>, kind: uint32)
    ensures (forall j :: 0 <= j < |aux| ==> aux[j].kind != kind) ==> Lookup(aux, kind) == None
  {
    if aux != [] { LookupNone(aux[1..], kind); }
  }

  /** Copies both vectors' strings to [args, args + bytes). */
  method CopyBoth(mem: array<byte>, args: nat, argv: seq<seq<byte>>, envp: seq<seq<byte>>) returns (envs: nat)
    requires 0 < args && args + |Flat(argv)| + |Flat(envp)| <= mem.Length
    requires (forall k :: 0 <= k < |argv| ==> Plain(argv[k])) && (forall k :: 0 <= k < |envp| ==> Plain(envp[k]))
    modifies mem
    ensures StringsAt(mem[..], args, argv, envs, envp)
    ensures AgreeOutside(old(mem[..]), mem[..], args, args + |Flat(argv)| + |Flat(envp)|)
  {
    hide Flat, Plain;
    envs := CopyStrings(mem, args, argv);
    ghost var m := mem[..];
    assert m[args..envs] == mem[args..envs];
    var end := CopyStrings(mem, envs, envp);
    assert mem[..][args..envs] == m[args..envs];
    assert mem[..][envs..end] == mem[envs..end];
  }

  /** The header in the form asked for, below the seed. */
  method PutHeader(mem: array<byte>, sp: nat, args: nat, argv: seq<seq<byte>>, envs: nat, envp: seq<seq<byte>>,
                   fdpic: bool, info: Info)
    requires 16 <= args && sp + 4 * HeaderWords(fdpic, |argv|, |envp|) <= args - 16 && mem.Length <= TWO32
    requires StringsAt(mem[..], args, argv, envs, envp)
    modifies mem
    ensures AgreeOutside(old(mem[..]), mem[..], sp, sp + 4 * HeaderWords(fdpic, |argv|, |envp|))
    ensures var m := mem[..];
            (if fdpic then ReadFdpic(m, sp) else ReadFlat(m, sp)) ==
                Block(|argv|, argv, envp, AuxOf(fdpic, info, args - 16))
  {
    hide Word, AgreeOutside, WordsAt, Flat, Addresses, Pairs, ReadVector, ReadAux, ReadFdpic, ReadFlat, StringsAt,
        Header, AuxOf;
    ghost var o := mem[..];
    assert args <= |o| by { Bounded(o, args, argv, envs, envp); }
    var aux := AuxOf(fdpic, info, args - 16);
    if fdpic {
      WriteHeader(mem, sp, [|argv|], args, argv, envs, envp, aux);
      AboveStrings(o, mem[..], sp, sp + 4 * HeaderWords(fdpic, |argv|, |envp|), args, argv, envs, envp);
      FdpicBack(mem[..], sp, args, argv, envs, envp, aux);
    } else {
      WriteHeader(mem, sp, [|argv|, sp + 12, sp + 12 + 4 * (|argv| + 1)], args, argv, envs, envp, aux);
      AboveStrings(o, mem[..], sp, sp + 4 * HeaderWords(fdpic, |argv|, |envp|), args, argv, envs, envp);
      FlatBack(mem[..], sp, args, argv, envs, envp, aux);
    }
  }

  lemma Bounded(m: seq<byte>, args: nat, argv: seq<seq<byte>>, envs: nat, envp: seq<seq<byte>>)
    requires StringsAt(m, args, argv, envs, envp)
    ensures args <= |m|
  {
  }

  /** Two changes, each inside [lo, hi), make one inside [lo, hi). */
  lemma Wider(l: seq<byte>, m: seq<byte>, n: seq<byte>, a: int, b: int, lo: int, hi: int)
    requires AgreeOutside(l, m, lo, hi) && AgreeOutside(m, n, a, b) && lo <= a && b <= hi
    ensures AgreeOutside(l, n, lo, hi)
  {
  }

  /** The seed below the strings, and the header below the seed if there is room. */
  method Finish(mem: array<byte>, stack: nat, size: nat, args: nat, argv: seq<seq<byte>>, envs: nat,
                envp: seq<seq<byte>>, fdpic: bool,
                info: Info, seed: seq<byte>) returns (sp: nat)
    requires 0 < stack <= args - 16 && args == ArgsAt(stack + size, argv, envp) && mem.Length <= TWO32 && |seed| == 16
    requires StringsAt(mem[..], args, argv, envs, envp)
    modifies mem
    ensures sp != 0 <==> HeaderAt(stack + size, fdpic, argv, envp) >= stack
    ensures sp != 0 ==> Started(mem[..], sp, stack, size, argv, envp, fdpic, info, seed)
    ensures AgreeOutside(old(mem[..]), mem[..], stack, args)
  {
    hide Flat, Plain, StringsAt, AuxOf, ReadFdpic, ReadFlat, AgreeOutside, AlignDown8;
    ghost var o := mem[..];
    Bounded(o, args, argv, envs, envp);
    Paste(mem, args - 16, seed);
    ghost var m := mem[..];
    AboveStrings(o, m, args - 16, args, args, argv, envs, envp);
    Same(o, stack, args);
    Wider(o, o, m, args - 16, args, stack, args);
    assert m[args - 16..args] == seed;
    var words := HeaderWords(fdpic, |argv|, |envp|);
    var header := AlignDown8(args - 16 - 4 * words);
    if header < stack {
      return 0;
    }
    sp := header;
    PutHeader(mem, sp, args, argv, envs, envp, fdpic, info);
    AboveSame(m, mem[..], sp, sp + 4 * words, args - 16, args);
    Wider(o, m, mem[..], sp, sp + 4 * words, stack, args);
  }

  /** Builds the block, or answers 0 exactly when it does not fit; nothing outside the stack changes
      either way. seed is the random bytes, if the host has any to give. */
  method SetupStack(mem: array<byte>, stack: nat, size: nat, argc: int, argv: seq<seq<byte>>, envp: seq<seq<byte>>,
                    fdpic: bool,
                    info: Info, seed: Option<seq<byte>>) returns (sp: nat)
    requires stack + size <= mem.Length <= TWO32 && argc <= |argv| && (seed.Some? ==> |seed.value| == 16)
    requires (forall k :: 0 <= k < |argv| ==> Plain(argv[k])) && (forall k :: 0 <= k < |envp| ==> Plain(envp[k]))
    modifies mem
    ensures sp != 0 <==> Fits(stack, size, argc, argv, envp, fdpic, seed.Some?)
    ensures sp != 0 ==> Started(mem[..], sp, stack, size, argv[..argc], envp, fdpic, info, seed.value)
    ensures AgreeOutside(old(mem[..]), mem[..], stack, stack + size)
  {
    hide Flat, Plain, StringsAt, AuxOf, ReadFdpic, ReadFlat, AgreeOutside, AlignDown8, Started;
    ghost var o := mem[..];
    Same(o, stack, stack + size);
    if stack == 0 || argc < 0 || argc > MAXARGS || |envp| > MAXENVS {
      return 0;
    }
    var av := argv[..argc];
    var b1 := TotalBytes(av);
    var b2 := TotalBytes(envp);
    if b1 + b2 > size {
      return 0;
    }
    var args := stack + size - b1 - b2;
    var envs := CopyBoth(mem, args, av, envp);
    ghost var m := mem[..];
    Wider(o, o, m, args, stack + size, stack, stack + size);
    if args - 16 < stack || seed.None? {
      return 0;
    }
    sp := Finish(mem, stack, size, args, av, envs, envp, fdpic, info, seed.value);
    Wider(o, m, mem[..], stack, args, stack, stack + size);
  }
}
