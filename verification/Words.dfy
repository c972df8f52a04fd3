/** Machine words as bounded integers. */
module Words {

  const W16 := 0x1_0000
  const W32 := 0x1_0000_0000
  const W64 := 0x1_0000_0000_0000_0000

  const MIN_INDEX := 12      // MIN_PAGESIZE_INDEX: pages have at least 2^12 bytes

  type Byte = x: int | 0 <= x < 0x100
  type U32 = x: int | 0 <= x < W32
  type U64 = x: int | 0 <= x < W64

  datatype Option<+T> = None | Some(value: T)

  /** x cut to 64 bits. */
  function Wrap(x: int): U64 {
    if 0 <= x < W64 then x else x % W64
  }

  /** x read as a two's complement number of the given modulus. */
  function Signed(x: int, modulus: nat): int {
    if 2 * x >= modulus then x - modulus else x
  }

  /** x moved n bits up. */
  function Up(x: nat, n: nat): nat { if n == 0 then x else 2 * Up(x, n - 1) }

  lemma {:induction false} UpPositive(n: nat)
    ensures Up(1, n) >= 1
  {
    if n > 0 {
      UpPositive(n - 1);
    }
  }

  function Pow2(k: nat): (r: nat)
    ensures r > 0
  {
    UpPositive(k);
    Up(1, k)
  }

  /** It is the number of the same residue between minus and plus half the modulus. */
  lemma SignedMeaning(x: int, modulus: nat)
    requires 0 <= x < modulus && modulus % 2 == 0
    ensures 0 <= 2 * Signed(x, modulus) + modulus < 2 * modulus
    ensures Signed(x, modulus) % modulus == x
  {
    QuotientIsUnique(Signed(x, modulus), modulus, if Signed(x, modulus) < 0 then -1 else 0, x);
  }

  lemma SmallMultipleIsZero(d: int, x: int)
    requires -d < d * x < d
    ensures x == 0
  {
    assert x >= 1 ==> d * x >= d;
    assert x <= -1 ==> d * x <= -d;
  }

  /** Division with remainder has one answer. */
  lemma QuotientIsUnique(v: int, d: int, k: int, r: int)
    requires 0 <= r < d
    requires v == d * k + r
    ensures v % d == r && v / d == k
  {
    var x := v / d - k;
    assert d * x == r - v % d by {
      assert v == d * (v / d) + v % d;
      assert d * x == d * (v / d) - d * k;
    }
    SmallMultipleIsZero(d, x);
  }
}
