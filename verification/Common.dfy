/** Vocabulary shared by every component: options, machine words, pages. */
module Common {
  datatype Option<+T> = None | Some(value: T)

  type byte = x: int | 0 <= x < 0x100 witness 0
  type u32 = x: int | 0 <= x < 0x1_0000_0000 witness 0
  type u64 = x: int | 0 <= x < 0x1_0000_0000_0000_0000 witness 0

  /** The value an unsigned 64-bit register holds after computing x. */
  function Wrap64(x: int): u64 { x % 0x1_0000_0000_0000_0000 }

  function PageOf(addr: nat): nat { addr / 4096 }

  function PageAddr(page: nat): nat { page * 4096 }

  lemma WrapAdd(x: int, d: int)
    ensures Wrap64(Wrap64(x) + d) == Wrap64(x + d)
  {
  }

  lemma WrapSmall(x: int)
    requires 0 <= x < 0x1_0000_0000_0000_0000
    ensures Wrap64(x) == x
  {}

  // ---------------------------------------------------------------------
  // Words in byte memory.
  // ---------------------------------------------------------------------

  function Pow256(n: nat): nat { if n == 0 then 1 else 0x100 * Pow256(n - 1) }

  lemma Pow256Values()
    ensures Pow256(4) == 0x1_0000_0000
    ensures Pow256(8) == 0x1_0000_0000_0000_0000
  {
    assert Pow256(4) == 0x100 * (0x100 * (0x100 * (0x100 * Pow256(0))));
    assert Pow256(8) == 0x100 * (0x100 * (0x100 * (0x100 * Pow256(4))));
  }

  /** The little-endian word of n bytes at address a. */
  function Load(m: seq<byte>, a: nat, n: nat): nat
    requires a + n <= |m|
    decreases |m| - a
  {
    if n == 0 then 0 else m[a] + 0x100 * Load(m, a + 1, n - 1)
  }

  /** Memory after an n-byte little-endian store of v at a. */
  function Store(m: seq<byte>, a: nat, v: nat, n: nat): (m': seq<byte>)
    requires a + n <= |m|
    ensures |m'| == |m|
    decreases |m| - a
  {
    if n == 0 then m else Store(m[a := v % 0x100], a + 1, v / 0x100, n - 1)
  }

  ghost predicate Agree(m: seq<byte>, m': seq<byte>, lo: nat, hi: nat) {
    |m| == |m'| && forall x :: lo <= x < hi && x < |m| ==> m[x] == m'[x]
  }

  lemma {:induction false} LoadAgree(m: seq<byte>, m': seq<byte>, a: nat, n: nat)
    requires a + n <= |m| && Agree(m, m', a, a + n)
    ensures Load(m, a, n) == Load(m', a, n)
    decreases n
  {
    if n > 0 { LoadAgree(m, m', a + 1, n - 1); }
  }

  lemma {:induction false} StoreLoad(m: seq<byte>, a: nat, v: nat, n: nat)
    requires a + n <= |m| && v < Pow256(n)
    ensures Load(Store(m, a, v, n), a, n) == v
    ensures OnlyIn(m, Store(m, a, v, n), a, a + n)
    decreases n
  {
    if n > 0 {
      StoreLoad(m[a := v % 0x100], a + 1, v / 0x100, n - 1);
    }
  }

  /** Only bytes of [lo, hi) differ. */
  ghost predicate OnlyIn(m: seq<byte>, m': seq<byte>, lo: nat, hi: nat) {
    Agree(m, m', 0, lo) && Agree(m, m', hi, |m|)
  }

  method StoreWord(mem: array<byte>, a: nat, v: nat, n: nat)
    requires a + n <= mem.Length
    modifies mem
    ensures mem[..] == Store(old(mem[..]), a, v, n)
    decreases n
  {
    if n > 0 {
      mem[a] := v % 0x100;
      assert mem[..] == old(mem[..])[a := v % 0x100];
      StoreWord(mem, a + 1, v / 0x100, n - 1);
    }
  }
}
