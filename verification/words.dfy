/** 32-bit words as integers, with the bitwise operations of section 3.2 of FIPS 180-4. */
module Words {
  import opened Base

  type word = x: int | 0 <= x < 0x1_0000_0000

  const MASK := 0xffff_ffff

  // Bit by bit, from the lowest.
  function AndBits(x: nat, y: nat): (r: nat)
    ensures r <= x
    decreases x
  {
    if x == 0 then 0 else 2 * AndBits(x / 2, y / 2) + (if x % 2 == 1 && y % 2 == 1 then 1 else 0)
  }

  function OrBits(x: nat, y: nat): nat
    decreases x + y
  {
    if x == 0 && y == 0 then 0
    else 2 * OrBits(x / 2, y / 2) + (if x % 2 == 1 || y % 2 == 1 then 1 else 0)
  }

  function XorBits(x: nat, y: nat): nat
    decreases x + y
  {
    if x == 0 && y == 0 then 0
    else 2 * XorBits(x / 2, y / 2) + (if x % 2 != y % 2 then 1 else 0)
  }

  // Every operation works on the lowest bit and on the rest separately.
  lemma AndHalves(x: nat, y: nat)
    ensures AndBits(x, y) / 2 == AndBits(x / 2, y / 2)
    ensures AndBits(x, y) % 2 == (if x % 2 == 1 && y % 2 == 1 then 1 else 0)
  {
  }

  lemma OrHalves(x: nat, y: nat)
    ensures OrBits(x, y) / 2 == OrBits(x / 2, y / 2)
    ensures OrBits(x, y) % 2 == (if x % 2 == 1 || y % 2 == 1 then 1 else 0)
  {
  }

  lemma XorHalves(x: nat, y: nat)
    ensures XorBits(x, y) / 2 == XorBits(x / 2, y / 2)
    ensures XorBits(x, y) % 2 == (if x % 2 != y % 2 then 1 else 0)
  {
  }

  lemma {:induction false} BitsBound(x: nat, y: nat, k: nat)
    requires x < Power(2, k) && y < Power(2, k)
    ensures OrBits(x, y) < Power(2, k) && XorBits(x, y) < Power(2, k)
    decreases k
  {
    if k > 0 {
      BitsBound(x / 2, y / 2, k - 1);
    }
  }

  lemma PowerOf32()
    ensures Power(2, 32) == 0x1_0000_0000
  {
    assert Power(2, 8) == 0x100;
    assert Power(2, 16) == 0x100 * Power(2, 8);
    assert Power(2, 24) == 0x100 * Power(2, 16);
    assert Power(2, 32) == 0x100 * Power(2, 24);
  }

  function And(x: word, y: word): word {
    AndBits(x, y)
  }

  function Or(x: word, y: word): word {
    PowerOf32();
    BitsBound(x, y, 32);
    OrBits(x, y)
  }

  function Xor(x: word, y: word): word {
    PowerOf32();
    BitsBound(x, y, 32);
    XorBits(x, y)
  }

  function Not(x: word): word {
    MASK - x
  }

  function Add(x: word, y: word): word {
    (x + y) % 0x1_0000_0000
  }

  function Shr(x: word, n: nat): word {
    DivBound(x, Power(2, n));
    x / Power(2, n)
  }

  lemma DivBound(x: nat, p: nat)
    requires p > 0
    ensures 0 <= x / p <= x
  {
    QuotientBound(x / p, p);
  }

  lemma {:induction false} QuotientBound(q: nat, p: nat)
    requires p > 0
    ensures q <= q * p
    decreases p
  {
    if p > 1 {
      QuotientBound(q, p - 1);
    }
  }

  function Shl(x: word, n: nat): word {
    x * Power(2, n) % 0x1_0000_0000
  }
}
