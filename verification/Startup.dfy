/** The startup block of a guest as its C runtime reads it: argument and environment strings found
    through pointer vectors, and the auxiliary vector, from nothing but memory and a stack pointer. */
module Startup {
  import opened Bytes

  const AT_PHDR: uint32 := 3
  const AT_PHENT: uint32 := 4
  const AT_PHNUM: uint32 := 5
  const AT_PAGESZ: uint32 := 6
  const AT_BASE: uint32 := 7
  const AT_ENTRY: uint32 := 9
  const AT_RANDOM: uint32 := 25

  datatype Aux = Aux(kind: uint32, value: uint32)

  /** What a program is started with. */
  datatype Block = Block(argc: uint32, argv: seq<seq<byte>>, envp: seq<seq<byte>>, auxv: seq<Aux>)

  // ---- the reader ----------------------------------------------------------------------------

  /** The bytes up to the next zero. */
  function ReadString(m: seq<byte>, a: nat): seq<byte>
    decreases |m| - a
  {
    if a >= |m| || m[a] == 0 then [] else [m[a]] + ReadString(m, a + 1)
  }

  /** The strings of a pointer vector, up to its null pointer. */
  function ReadVector(m: seq<byte>, a: nat): seq<seq<byte>>
    decreases |m| - a
  {
    if a + 4 > |m| || Word(m, a) == 0 then [] else [ReadString(m, Word(m, a))] + ReadVector(m, a + 4)
  }

  /** The pairs up to the null kind. */
  function ReadAux(m: seq<byte>, a: nat): seq<Aux>
    decreases |m| - a
  {
    if a + 8 > |m| || Word(m, a) == 0 then [] else [Aux(Word(m, a), Word(m, a + 4))] + ReadAux(m, a + 8)
  }

  /** FDPIC: argc, the argument vector, the environment vector, the auxiliary vector. */
  function ReadFdpic(m: seq<byte>, sp: nat): Block
    requires sp + 4 <= |m|
  {
    var argc := Word(m, sp);
    var envp := ReadVector(m, sp + 4 + 4 * (argc + 1));
    Block(argc, ReadVector(m, sp + 4), envp, ReadAux(m, sp + 4 + 4 * (argc + 1) + 4 * (|envp| + 1)))
  }

  /** bFLT: argc and pointers to both vectors; the auxiliary vector follows the environment. */
  function ReadFlat(m: seq<byte>, sp: nat): Block
    requires sp + 12 <= |m|
  {
    var envp := ReadVector(m, Word(m, sp + 8));
    Block(Word(m, sp), ReadVector(m, Word(m, sp + 4)), envp, ReadAux(m, Word(m, sp + 8) + 4 * (|envp| + 1)))
  }

  // ---- what is stored ------------------------------------------------------------------------

  /** A C string: no zero inside. */
  predicate Plain(s: seq<byte>) { forall i :: 0 <= i < |s| ==> s[i] != 0 }

  /** Strings one after the other, each with its terminator. */
  function Flat(vec: seq<seq<byte>>): seq<byte> {
    if vec == [] then [] else Flat(vec[..|vec| - 1]) + vec[|vec| - 1] + [0]
  }

  /** Where each string of vec starts when they are laid out from at. */
  function Addresses(at: nat, vec: seq<seq<byte>>): (r: seq<int>)
    ensures |r| == |vec| && forall i :: 0 <= i < |vec| ==> r[i] == at + |Flat(vec[..i])|
  {
    seq(|vec|, i requires 0 <= i < |vec| => at + |Flat(vec[..i])|)
  }

  /** The words ws are stored from a on. */
  ghost predicate WordsAt(m: seq<byte>, a: nat, ws: seq<int>) {
    a + 4 * |ws| <= |m| && forall i :: 0 <= i < |ws| ==> Word(m, a + 4 * i) == ws[i]
  }

  function Pairs(aux: seq<Aux>): (ws: seq<uint32>)
    ensures |ws| == 2 * |aux|
  {
    if aux == [] then [] else [aux[0].kind, aux[0].value] + Pairs(aux[1..])
  }

  // ---- reading back what is stored ----------------------------------------------------------

  lemma {:induction false} StringBack(m: seq<byte>, a: nat, s: seq<byte>)
    requires a + |s| < |m| && m[a..a + |s|] == s && m[a + |s|] == 0 && Plain(s)
    ensures ReadString(m, a) == s
    decreases |s|
  {
    if s != [] {
      assert m[a] == s[0];
      assert m[a + 1..a + 1 + |s[1..]|] == s[1..];
      StringBack(m, a + 1, s[1..]);
    }
  }

  lemma {:induction false} FlatPrefix(vec: seq<seq<byte>>, i: nat)
    requires i < |vec|
    ensures |Flat(vec[..i])| + |vec[i]| + 1 <= |Flat(vec)|
    ensures Flat(vec)[|Flat(vec[..i])|..|Flat(vec[..i])| + |vec[i]| + 1] == vec[i] + [0]
  {
    var n := |vec| - 1;
    if i < n {
      FlatPrefix(vec[..n], i);
      assert vec[..n][..i] == vec[..i];
      assert Flat(vec)[..|Flat(vec[..n])|] == Flat(vec[..n]);
    } else {
      assert Flat(vec) == Flat(vec[..n]) + (vec[n] + [0]);
    }
  }

  lemma SubSlice(m: seq<byte>, at: nat, f: seq<byte>, j: nat, k: nat)
    requires at + |f| <= |m| && m[at..at + |f|] == f && j <= k <= |f|
    ensures m[at + j..at + k] == f[j..k]
  {
    var x, y := m[at + j..at + k], f[j..k];
    forall i | 0 <= i < |x| ensures x[i] == y[i] {
      assert m[at..at + |f|][j + i] == f[j + i];
    }
  }

  /** The i-th string laid out at at. */
  lemma StringHere(m: seq<byte>, at: nat, vec: seq<seq<byte>>, i: nat)
    requires i < |vec| && at + |Flat(vec)| <= |m| && m[at..at + |Flat(vec)|] == Flat(vec)
    ensures var a, n := at + |Flat(vec[..i])|, |vec[i]|;
            a + n + 1 <= at + |Flat(vec)| && m[a..a + n] == vec[i] && m[a + n] == 0
  {
    hide Flat;
    FlatPrefix(vec, i);
    var k, n := |Flat(vec[..i])|, |vec[i]|;
    SubSlice(m, at, Flat(vec), k, k + n + 1);
    SubSlice(m, at + k, vec[i] + [0], 0, n);
    assert m[at + k..at + k + n + 1][n] == (vec[i] + [0])[n];
    assert (vec[i] + [0])[0..n] == vec[i];
  }

  /** A pointer vector from its i-th entry on. */
  lemma {:induction false} VectorFrom(m: seq<byte>, a: nat, at: nat, vec: seq<seq<byte>>, i: nat)
    requires i <= |vec| && at > 0 && forall k :: 0 <= k < |vec| ==> Plain(vec[k])
    requires WordsAt(m, a, Addresses(at, vec) + [0])
    requires at + |Flat(vec)| <= |m| && m[at..at + |Flat(vec)|] == Flat(vec)
    ensures ReadVector(m, a + 4 * i) == vec[i..]
    decreases |vec| - i
  {
    hide Flat, Addresses, Word, Plain, ReadString;
    var ws := Addresses(at, vec) + [0];
    assert Word(m, a + 4 * i) == ws[i];
    if i < |vec| {
      StringHere(m, at, vec, i);
      StringBack(m, ws[i], vec[i]);
      VectorFrom(m, a, at, vec, i + 1);
      assert vec[i..] == [vec[i]] + vec[i + 1..];
    }
  }

  lemma VectorBack(m: seq<byte>, a: nat, at: nat, vec: seq<seq<byte>>)
    requires at > 0 && forall k :: 0 <= k < |vec| ==> Plain(vec[k])
    requires WordsAt(m, a, Addresses(at, vec) + [0])
    requires at + |Flat(vec)| <= |m| && m[at..at + |Flat(vec)|] == Flat(vec)
    ensures ReadVector(m, a) == vec
  {
    hide Flat, ReadVector, Addresses, WordsAt, Plain;
    VectorFrom(m, a, at, vec, 0);
  }

  lemma {:induction false} AuxBack(m: seq<byte>, a: nat, aux: seq<Aux>)
    requires WordsAt(m, a, Pairs(aux) + [0, 0]) && forall k :: 0 <= k < |aux| ==> aux[k].kind != 0
    ensures ReadAux(m, a) == aux
    decreases |aux|
  {
    var ws := Pairs(aux) + [0, 0];
    assert Word(m, a + 4 * 0) == ws[0];
    if aux != [] {
      assert Word(m, a + 4 * 1) == ws[1];
      var rest := Pairs(aux[1..]) + [0, 0];
      assert ws == [aux[0].kind, aux[0].value] + rest;
      forall i | 0 <= i < |rest| ensures Word(m, a + 8 + 4 * i) == rest[i] {
        assert Word(m, a + 4 * (i + 2)) == ws[i + 2];
      }
      AuxBack(m, a + 8, aux[1..]);
    }
  }

  lemma WordsPart(m: seq<byte>, a: nat, x: seq<int>, y: seq<int>)
    requires WordsAt(m, a, x + y)
    ensures WordsAt(m, a, x) && WordsAt(m, a + 4 * |x|, y)
  {
    forall i | 0 <= i < |x| ensures Word(m, a + 4 * i) == x[i] { assert (x + y)[i] == x[i]; }
    forall i | 0 <= i < |y| ensures Word(m, a + 4 * |x| + 4 * i) == y[i] {
      assert (x + y)[|x| + i] == y[i];
      assert Word(m, a + 4 * (|x| + i)) == y[i];
    }
  }

  lemma WordsJoin(m: seq<byte>, a: nat, x: seq<int>, y: seq<int>)
    requires WordsAt(m, a, x) && WordsAt(m, a + 4 * |x|, y)
    ensures WordsAt(m, a, x + y)
  {
    forall i | 0 <= i < |x + y| ensures Word(m, a + 4 * i) == (x + y)[i] {
      if i >= |x| { assert Word(m, a + 4 * |x| + 4 * (i - |x|)) == y[i - |x|]; }
    }
  }

  lemma WordsFrame(m: seq<byte>, n: seq<byte>, a: nat, ws: seq<int>)
    requires WordsAt(m, a, ws) && Agree(m, n, a, a + 4 * |ws|)
    ensures WordsAt(n, a, ws)
  {
    forall i | 0 <= i < |ws| ensures Word(n, a + 4 * i) == ws[i] { WordFrame(m, n, a + 4 * i); }
  }

  /** The header words: the leading ones, both pointer vectors with the strings at args and envs, and
      the auxiliary vector. */
  function Header(head: seq<int>, args: nat, argv: seq<seq<byte>>, envs: nat, envp: seq<seq<byte>>,
                  aux: seq<Aux>): seq<int> {
    head + (Addresses(args, argv) + [0]) + (Addresses(envs, envp) + [0]) + (Pairs(aux) + [0, 0])
  }

  /** The strings of both vectors lie where the pointers say. */
  ghost predicate StringsAt(m: seq<byte>, args: nat, argv: seq<seq<byte>>, envs: nat, envp: seq<seq<byte>>) {
    && 0 < args && envs == args + |Flat(argv)| && envs + |Flat(envp)| <= |m|
    && m[args..envs] == Flat(argv) && m[envs..envs + |Flat(envp)|] == Flat(envp)
    && (forall k :: 0 <= k < |argv| ==> Plain(argv[k])) && (forall k :: 0 <= k < |envp| ==> Plain(envp[k]))
  }

  predicate Kinds(aux: seq<Aux>) { forall k :: 0 <= k < |aux| ==> aux[k].kind != 0 }

  /** The C runtime reads an FDPIC block back exactly. */
  lemma FdpicBack(m: seq<byte>, sp: nat, args: nat, argv: seq<seq<byte>>, envs: nat, envp: seq<seq<byte>>,
                  aux: seq<Aux>)
    requires StringsAt(m, args, argv, envs, envp) && Kinds(aux) && |argv| < TWO32
    requires WordsAt(m, sp, Header([|argv|], args, argv, envs, envp, aux))
    ensures ReadFdpic(m, sp) == Block(|argv|, argv, envp, aux)
  {
    hide ReadVector, ReadAux, Addresses, Pairs, Flat, Word;
    var a, e, x := Addresses(args, argv) + [0], Addresses(envs, envp) + [0], Pairs(aux) + [0, 0];
    WordsPart(m, sp, [|argv|] + a + e, x);
    WordsPart(m, sp, [|argv|] + a, e);
    WordsPart(m, sp, [|argv|], a);
    var h: seq<int> := [|argv|];
    assert Word(m, sp + 4 * 0) == h[0];
    VectorBack(m, sp + 4, args, argv);
    VectorBack(m, sp + 4 + 4 * (|argv| + 1), envs, envp);
    AuxBack(m, sp + 4 + 4 * (|argv| + 1) + 4 * (|envp| + 1), aux);
  }

  /** The C runtime reads a bFLT block back exactly. */
  lemma FlatBack(m: seq<byte>, sp: nat, args: nat, argv: seq<seq<byte>>, envs: nat, envp: seq<seq<byte>>, aux: seq<Aux>)
    requires StringsAt(m, args, argv, envs, envp) && Kinds(aux) && |argv| < TWO32
    requires WordsAt(m, sp, Header([|argv|, sp + 12, sp + 12 + 4 * (|argv| + 1)], args, argv, envs, envp, aux))
    ensures ReadFlat(m, sp) == Block(|argv|, argv, envp, aux)
  {
    hide ReadVector, ReadAux, Addresses, Pairs, Flat, Word;
    var h := [|argv|, sp + 12, sp + 12 + 4 * (|argv| + 1)];
    var a, e, x := Addresses(args, argv) + [0], Addresses(envs, envp) + [0], Pairs(aux) + [0, 0];
    WordsPart(m, sp, h + a + e, x);
    WordsPart(m, sp, h + a, e);
    WordsPart(m, sp, h, a);
    assert Word(m, sp + 4 * 0) == h[0] && Word(m, sp + 4 * 1) == h[1] && Word(m, sp + 4 * 2) == h[2];
    VectorBack(m, sp + 12, args, argv);
    VectorBack(m, sp + 12 + 4 * (|argv| + 1), envs, envp);
    AuxBack(m, sp + 12 + 4 * (|argv| + 1) + 4 * (|envp| + 1), aux);
  }

  lemma StringsFrame(m: seq<byte>, n: seq<byte>, args: nat, argv: seq<seq<byte>>, envs: nat, envp: seq<seq<byte>>)
    requires StringsAt(m, args, argv, envs, envp) && Agree(m, n, args, |m|)
    ensures StringsAt(n, args, argv, envs, envp)
  {
    hide Flat;
    assert n[args..envs] == m[args..envs];
    assert n[envs..envs + |Flat(envp)|] == m[envs..envs + |Flat(envp)|];
  }
}
