/** Machine words of the 32-bit kernel build, as ranges of the unbounded integers. */
module Words {
  const TWO_32 := 0x1_0000_0000
  const TWO_64 := 0x1_0000_0000_0000_0000

  type byte = x: int | 0 <= x < 256
  type u32 = x: int | 0 <= x < TWO_32
  type u64 = x: int | 0 <= x < TWO_64

  /** Unsigned 32-bit wrap-around. */
  function Wrap32(x: int): u32 {
    x % TWO_32
  }

  /** Unsigned 64-bit wrap-around. */
  function Wrap64(x: int): u64 {
    x % TWO_64
  }

  lemma WrapSmall(x: nat)
    requires x < TWO_32
    ensures Wrap32(x) == x
  {
  }

  /** Wrapping each term or only the sum makes no difference. */
  lemma WrapAdd(a: int, b: int)
    ensures Wrap32(Wrap32(a) + b) == Wrap32(a + b)
  {
    var q, r := a / TWO_32, a % TWO_32;
    assert a + b == TWO_32 * q + (r + b);
    WrapMultiple(r + b, q);
  }

  lemma WrapMultiple(x: int, q: int)
    ensures Wrap32(TWO_32 * q + x) == Wrap32(x)
  {
    var k, r := x / TWO_32, x % TWO_32;
    assert TWO_32 * q + x == TWO_32 * (q + k) + r;
  }

  lemma WrapAdd64(a: int, b: int)
    ensures Wrap64(Wrap64(a) + b) == Wrap64(a + b)
  {
    var q, r := a / TWO_64, a % TWO_64;
    var k, x := (r + b) / TWO_64, (r + b) % TWO_64;
    assert a + b == TWO_64 * (q + k) + x;
  }

  /** A remainder one revolution beyond the modulus. */
  lemma ModOnce(x: nat, n: nat)
    requires n > 0 && x < 2 * n
    ensures x % n == if x < n then x else x - n
  {
    var q, r := x / n, x % n;
    assert x == n * q + r && 0 <= r < n;
    assert q == 0 || q == 1;
  }
}
