/** Little-endian words in a flat byte memory: the machine view that the arena headers,
    the ELF image, the FDPIC loadmap and the startup stack all share. */
module Bytes {

  type byte = x: int | 0 <= x < 256
  const TWO32: int := 0x1_0000_0000
  const TWO31: int := 0x8000_0000
  type uint32 = x: int | 0 <= x < 0x1_0000_0000
  type uint16 = x: int | 0 <= x < 0x1_0000

  datatype Option<+T> = None | Some(value: T)

  function Word(m: seq<byte>, a: nat): (w: uint32)
    requires a + 4 <= |m|
  {
    var b0: int, b1: int, b2: int, b3: int := m[a], m[a + 1], m[a + 2], m[a + 3];
    b0 + 0x100 * b1 + 0x1_0000 * b2 + 0x100_0000 * b3
  }

  function Half(m: seq<byte>, a: nat): (w: uint16)
    requires a + 2 <= |m|
  {
    var b0: int, b1: int := m[a], m[a + 1];
    b0 + 0x100 * b1
  }

  /** Both memories hold the same bytes at every address of [lo, hi). */
  ghost predicate Agree(m: seq<byte>, n: seq<byte>, lo: int, hi: int)
  {
    |m| == |n| && forall k :: 0 <= k < |m| && lo <= k < hi ==> m[k] == n[k]
  }

  /** Both memories hold the same bytes at every address outside [lo, hi). */
  ghost predicate AgreeOutside(m: seq<byte>, n: seq<byte>, lo: int, hi: int)
  {
    |m| == |n| && forall k :: 0 <= k < |m| && !(lo <= k < hi) ==> m[k] == n[k]
  }

  /** n is m after a 32-bit little-endian store of v at a. */
  ghost predicate Stored(m: seq<byte>, n: seq<byte>, a: nat, v: int) {
    a + 4 <= |m| && AgreeOutside(m, n, a, a + 4) && Word(n, a) == v
  }

  lemma WordFrame(m: seq<byte>, n: seq<byte>, a: nat)
    requires a + 4 <= |m| && Agree(m, n, a, a + 4)
    ensures Word(m, a) == Word(n, a)
  {
  }

  function LoadWord(mem: array<byte>, a: nat): (w: uint32)
    requires a + 4 <= mem.Length
    reads mem
    ensures w == Word(mem[..], a)
  {
    var b0: int, b1: int, b2: int, b3: int := mem[a], mem[a + 1], mem[a + 2], mem[a + 3];
    b0 + 0x100 * b1 + 0x1_0000 * b2 + 0x100_0000 * b3
  }

  method StoreWord(mem: array<byte>, a: nat, v: uint32)
    requires a + 4 <= mem.Length
    modifies mem
    ensures Stored(old(mem[..]), mem[..], a, v)
  {
    var b0, b1, b2, b3 := v % 0x100, v / 0x100 % 0x100, v / 0x1_0000 % 0x100, v / 0x100_0000;
    Digits(v);
    mem[a] := b0;
    mem[a + 1] := b1;
    mem[a + 2] := b2;
    mem[a + 3] := b3;
    assert mem[..][a] == b0 && mem[..][a + 1] == b1 && mem[..][a + 2] == b2 && mem[..][a + 3] == b3;
  }

  lemma Digits(v: uint32)
    ensures v == v % 0x100 + 0x100 * (v / 0x100 % 0x100) + 0x1_0000 * (v / 0x1_0000 % 0x100)
        + 0x100_0000 * (v / 0x100_0000)
  {
    var x, y: int := v / 0x100, v / 0x1_0000;
    assert y == x / 0x100 && v / 0x100_0000 == y / 0x100;
  }

  /** memset(a, 0, n) */
  method Zero(mem: array<byte>, a: nat, n: nat)
    requires a + n <= mem.Length
    modifies mem
    ensures AgreeOutside(old(mem[..]), mem[..], a, a + n)
    ensures forall k :: a <= k < a + n ==> mem[k] == 0
  {
    var i := 0;
    while i < n
      invariant 0 <= i <= n
      invariant forall k :: a <= k < a + i ==> mem[k] == 0
      invariant forall k :: 0 <= k < mem.Length && !(a <= k < a + n) ==> mem[k] == old(mem[k])
    {
      mem[a + i] := 0;
      i := i + 1;
    }
  }

  /** memcpy within one memory; source and destination do not overlap. */
  method Copy(mem: array<byte>, dst: nat, src: nat, n: nat)
    requires dst + n <= mem.Length && src + n <= mem.Length
    requires dst + n <= src || src + n <= dst || n == 0
    modifies mem
    ensures AgreeOutside(old(mem[..]), mem[..], dst, dst + n)
    ensures mem[dst..dst + n] == old(mem[src..src + n])
  {
    var i := 0;
    while i < n
      invariant 0 <= i <= n
      invariant mem[dst..dst + i] == old(mem[src..src + i])
      invariant forall k :: 0 <= k < mem.Length && !(dst <= k < dst + n) ==> mem[k] == old(mem[k])
    {
      assert mem[src + i] == old(mem[src..src + n])[i];
      mem[dst + i] := mem[src + i];
      assert old(mem[src..src + i + 1]) == old(mem[src..src + i]) + [mem[dst + i]];
      i := i + 1;
    }
  }

  /** memcpy of bytes that live elsewhere. */
  method Paste(mem: array<byte>, dst: nat, data: seq<byte>)
    requires dst + |data| <= mem.Length
    modifies mem
    ensures AgreeOutside(old(mem[..]), mem[..], dst, dst + |data|)
    ensures mem[dst..dst + |data|] == data
  {
    var i := 0;
    while i < |data|
      invariant 0 <= i <= |data|
      invariant mem[dst..dst + i] == data[..i]
      invariant forall k :: 0 <= k < mem.Length && !(dst <= k < dst + |data|) ==> mem[k] == old(mem[k])
    {
      mem[dst + i] := data[i];
      i := i + 1;
    }
  }

  // ---- remainders ----------------------------------------------------------------------------

  lemma MulBound(m: int, k: int)
    requires m > 0
    ensures k >= 1 ==> m * k >= m
    ensures k <= -1 ==> m * k <= -m
  {
  }

  lemma DivUnique(x: int, m: int, q: int, r: int)
    requires m > 0 && x == m * q + r && 0 <= r < m
    ensures x / m == q && x % m == r
  {
    var p, t := x / m, x % m;
    assert m * (p - q) == r - t;
    MulBound(m, p - q);
  }

  lemma ModOnce(x: nat, m: nat)
    requires m > 0 && x < 2 * m
    ensures x % m == if x < m then x else x - m
  {
    if x < m { DivUnique(x, m, 0, x); } else { DivUnique(x, m, 1, x - m); }
  }
}
