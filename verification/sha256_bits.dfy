/**
 * What the functions of sections 3.2, 4.1.2 and 6.2.2 of FIPS 180-4 do to single bits, and that a
 * round and the padding of section 5.1.1 can be undone.
 */
module Sha256Bits {
  import opened Base
  import opened Words
  import opened BlockIteration
  import opened Sha256Spec

  // Bit i, counted from the lowest.
  function Bit(x: nat, i: nat): (b: nat)
    ensures b <= 1
    decreases i
  {
    if i == 0 then x % 2 else Bit(x / 2, i - 1)
  }

  lemma {:induction false} BitOfXor(x: nat, y: nat, i: nat)
    ensures Bit(XorBits(x, y), i) == (Bit(x, i) + Bit(y, i)) % 2
    decreases i
  {
    hide XorBits;
    XorHalves(x, y);
    if i > 0 {
      BitOfXor(x / 2, y / 2, i - 1);
    }
  }

  lemma {:induction false} BitOfAnd(x: nat, y: nat, i: nat)
    ensures Bit(AndBits(x, y), i) == Bit(x, i) * Bit(y, i)
    decreases i
  {
    hide AndBits;
    AndHalves(x, y);
    if i > 0 {
      BitOfAnd(x / 2, y / 2, i - 1);
    }
  }

  lemma {:induction false} BitOfOr(x: nat, y: nat, i: nat)
    ensures Bit(OrBits(x, y), i) == if Bit(x, i) == 1 || Bit(y, i) == 1 then 1 else 0
    decreases i
  {
    hide OrBits;
    OrHalves(x, y);
    if i > 0 {
      BitOfOr(x / 2, y / 2, i - 1);
    }
  }

  lemma {:induction false} BitOfNot(x: nat, k: nat, i: nat)
    requires x < Power(2, k) && i < k
    ensures Bit(Power(2, k) - 1 - x, i) == 1 - Bit(x, i)
    decreases i
  {
    NotHalf(x, k);
    if i > 0 {
      BitOfNot(x / 2, k - 1, i - 1);
    }
  }

  lemma NotHalf(x: nat, k: nat)
    requires k > 0 && x < Power(2, k)
    ensures x / 2 < Power(2, k - 1)
    ensures (Power(2, k) - 1 - x) / 2 == Power(2, k - 1) - 1 - x / 2 && (Power(2, k) - 1 - x) % 2 == 1 - x % 2
  {
  }

  // ---------------------------------------------------------------- shifts

  lemma HalfThenRest(x: nat, p: nat)
    requires p > 0
    ensures x / 2 / p == x / (2 * p)
  {
    var q, r := x / 2 / p, x / 2 % p;
    assert x == 2 * (p * q + r) + x % 2;
    Uniquely(x, 2 * p, q, 2 * r + x % 2);
  }

  lemma Uniquely(x: nat, p: nat, q: nat, r: nat)
    requires p > 0 && x == p * q + r && r < p
    ensures x / p == q && x % p == r
  {
    var d: int := x / p - q;
    assert p * d == r - x % p;
    Multiples(p, d);
  }

  lemma Multiples(p: int, d: int)
    requires p >= 0
    ensures d >= 1 ==> p * d >= p
    ensures d <= -1 ==> p * d <= -p
  {
    if d >= 1 {
      assert p * (d - 1) >= 0;
    } else {
      var e := -d;
      assert p * e == -(p * d);
      if e >= 1 {
        assert p * (e - 1) >= 0;
      }
    }
  }

  lemma {:induction false} BitOfQuotient(x: nat, n: nat, i: nat)
    ensures Bit(x / Power(2, n), i) == Bit(x, n + i)
    decreases n
  {
    if n > 0 {
      HalfThenRest(x, Power(2, n - 1));
      BitOfQuotient(x / 2, n - 1, i);
    }
  }

  lemma {:induction false} BitOfProduct(x: nat, n: nat, i: nat)
    ensures Bit(x * Power(2, n), i) == if i < n then 0 else Bit(x, i - n)
    decreases n
  {
    if n > 0 {
      var y := x * Power(2, n - 1);
      assert x * Power(2, n) == 2 * y;
      assert 2 * y / 2 == y && 2 * y % 2 == 0;
      if i > 0 {
        BitOfProduct(x, n - 1, i - 1);
      }
    }
  }

  lemma {:induction false} BitOfRemainder(x: nat, k: nat, i: nat)
    requires i < k
    ensures Bit(x % Power(2, k), i) == Bit(x, i)
    decreases i
  {
    RemainderHalf(x, Power(2, k - 1));
    if i > 0 {
      BitOfRemainder(x / 2, k - 1, i - 1);
    }
  }

  lemma RemainderHalf(x: nat, p: nat)
    requires p > 0
    ensures x % (2 * p) / 2 == x / 2 % p && x % (2 * p) % 2 == x % 2
  {
    var q, r := x / 2 / p, x / 2 % p;
    assert x == 2 * (p * q + r) + x % 2;
    Uniquely(x, 2 * p, q, 2 * r + x % 2);
  }

  lemma {:induction false} NoHighBits(x: nat, k: nat, i: nat)
    requires x < Power(2, k) && k <= i
    ensures Bit(x, i) == 0
    decreases k
  {
    if k == 0 {
      NoBits(i);
    } else {
      NoHighBits(x / 2, k - 1, i - 1);
    }
  }

  lemma {:induction false} NoBits(i: nat)
    ensures Bit(0, i) == 0
  {
    if i > 0 {
      NoBits(i - 1);
    }
  }

  // ---------------------------------------------------------------- the functions of the standard

  // Bit i of x turned right by n places, and of x shifted right by n places.
  function Turned(x: word, n: nat, i: nat): nat {
    Bit(x, (i + n) % 32)
  }

  function Moved(x: word, n: nat, i: nat): nat {
    if i + n < 32 then Bit(x, i + n) else 0
  }

  lemma ShrBit(x: word, n: nat, i: nat)
    ensures Bit(Shr(x, n), i) == Moved(x, n, i)
  {
    PowerOf32();
    BitOfQuotient(x, n, i);
    if i + n >= 32 {
      NoHighBits(x, 32, i + n);
    }
    hide Power, Bit;
  }

  lemma ShlBit(x: word, n: nat, i: nat)
    requires i < 32
    ensures Bit(Shl(x, n), i) == if i < n then 0 else Bit(x, i - n)
  {
    PowerOf32();
    BitOfRemainder(x * Power(2, n), 32, i);
    BitOfProduct(x, n, i);
    hide Power, Bit;
  }

  lemma RotRBit(x: word, n: nat, i: nat)
    requires 0 < n < 32 && i < 32
    ensures Bit(RotR(x, n), i) == Turned(x, n, i)
  {
    hide Power, Bit, Shr, Shl, OrBits;
    ShrBit(x, n, i);
    ShlBit(x, 32 - n, i);
    BitOfOr(Shr(x, n), Shl(x, 32 - n), i);
  }

  lemma ThreeBits(a: word, b: word, c: word, i: nat)
    ensures Bit(Xor(Xor(a, b), c), i) == (Bit(a, i) + Bit(b, i) + Bit(c, i)) % 2
  {
    hide Bit, XorBits;
    BitOfXor(a, b, i);
    BitOfXor(Xor(a, b), c, i);
  }

  /** Every bit of the sums is the parity of three bits of the word. */
  lemma SigmaBits(x: word, i: nat)
    requires i < 32
    ensures Bit(BigSigma0(x), i) == (Turned(x, 2, i) + Turned(x, 13, i) + Turned(x, 22, i)) % 2
    ensures Bit(BigSigma1(x), i) == (Turned(x, 6, i) + Turned(x, 11, i) + Turned(x, 25, i)) % 2
    ensures Bit(SmallSigma0(x), i) == (Turned(x, 7, i) + Turned(x, 18, i) + Moved(x, 3, i)) % 2
    ensures Bit(SmallSigma1(x), i) == (Turned(x, 17, i) + Turned(x, 19, i) + Moved(x, 10, i)) % 2
  {
    hide Bit, RotR, Shr, Xor, Turned, Moved;
    RotRBit(x, 2, i);
    RotRBit(x, 13, i);
    RotRBit(x, 22, i);
    ThreeBits(RotR(x, 2), RotR(x, 13), RotR(x, 22), i);
    RotRBit(x, 6, i);
    RotRBit(x, 11, i);
    RotRBit(x, 25, i);
    ThreeBits(RotR(x, 6), RotR(x, 11), RotR(x, 25), i);
    RotRBit(x, 7, i);
    RotRBit(x, 18, i);
    ShrBit(x, 3, i);
    ThreeBits(RotR(x, 7), RotR(x, 18), Shr(x, 3), i);
    RotRBit(x, 17, i);
    RotRBit(x, 19, i);
    ShrBit(x, 10, i);
    ThreeBits(RotR(x, 17), RotR(x, 19), Shr(x, 10), i);
  }

  /** Every bit of the choice is chosen by the bit of x, every bit of the majority is that of two. */
  lemma ChoiceBits(x: word, y: word, z: word, i: nat)
    requires i < 32
    ensures Bit(Ch(x, y, z), i) == if Bit(x, i) == 1 then Bit(y, i) else Bit(z, i)
    ensures Bit(Maj(x, y, z), i) == if Bit(x, i) + Bit(y, i) + Bit(z, i) >= 2 then 1 else 0
  {
    hide Bit, AndBits, XorBits, Power;
    PowerOf32();
    BitOfNot(x, 32, i);
    BitOfAnd(x, y, i);
    BitOfAnd(Not(x), z, i);
    BitOfXor(And(x, y), And(Not(x), z), i);
    BitOfAnd(x, z, i);
    BitOfAnd(y, z, i);
    ThreeBits(And(x, y), And(x, z), And(y, z), i);
  }

  // ---------------------------------------------------------------- undoing a round

  function Less(x: word, y: word): word {
    (x - y) % 0x1_0000_0000
  }

  lemma LessAdds(x: word, y: word)
    ensures Less(Add(x, y), y) == x && Less(Add(x, y), x) == y
  {
  }

  // The registers before a round, from those after it.
  function Unround(r: Vars, k: word, w: word): Vars {
    var t1 := Less(r.a, Add(BigSigma0(r.b), Maj(r.b, r.c, r.d)));
    var h := Less(Less(Less(Less(t1, w), k), Ch(r.f, r.g, r.h)), BigSigma1(r.f));
    Vars(r.b, r.c, r.d, Less(r.e, t1), r.f, r.g, r.h, h)
  }

  /** A round loses nothing: the registers before it come back from those after it. */
  lemma RoundUndone(v: Vars, k: word, w: word)
    ensures Unround(Round(v, k, w), k, w) == v
  {
    hide Add, Less, BigSigma0, BigSigma1, Ch, Maj;
    var r := Round(v, k, w);
    var t2 := Add(BigSigma0(v.a), Maj(v.a, v.b, v.c));
    var s1 := Add(v.h, BigSigma1(v.e));
    var s2 := Add(s1, Ch(v.e, v.f, v.g));
    var s3 := Add(s2, k);
    var t1 := Add(s3, w);
    LessAdds(t1, t2);
    LessAdds(v.d, t1);
    LessAdds(s3, w);
    LessAdds(s2, k);
    LessAdds(s1, Ch(v.e, v.f, v.g));
    LessAdds(v.h, BigSigma1(v.e));
  }

  // ---------------------------------------------------------------- bytes

  /** Words are read from and written to bytes with the highest first. */
  lemma WordsAreBigEndian(x: word, block: Block, t: nat)
    requires t < 16
    ensures WordBytes(x) == BigEndian(x, 4)
    ensures BigEndian(BlockWord(block, t), 4) == block[4 * t..4 * t + 4]
  {
    FourBytes(x);
    ReadBytes(block[4 * t], block[4 * t + 1], block[4 * t + 2], block[4 * t + 3]);
    hide BigEndian, FromBytes;
  }

  lemma BigEndianLast(x: nat, n: nat)
    requires n > 0
    ensures BigEndian(x, n) == BigEndian(x / 0x100, n - 1) + [x % 0x100]
    ensures BigEndian(x, 0) == []
  {
  }

  lemma Quotients(x: nat)
    ensures x / 0x1_0000 == x / 0x100 / 0x100 && x / 0x100_0000 == x / 0x1_0000 / 0x100
  {
  }

  lemma FourBytes(x: word)
    ensures BigEndian(x, 4) == WordBytes(x)
  {
    hide BigEndian;
    Quotients(x);
    BigEndianLast(x, 4);
    BigEndianLast(x / 0x100, 3);
    BigEndianLast(x / 0x1_0000, 2);
    BigEndianLast(x / 0x100_0000, 1);
    BigEndianLast(x / 0x100_0000 / 0x100, 1);
  }

  lemma ReadBytes(b0: byte, b1: byte, b2: byte, b3: byte)
    ensures BigEndian(FromBytes(b0, b1, b2, b3), 4) == [b0, b1, b2, b3]
  {
    var c: nat := b0 * 0x100 + b1;
    var d: nat := c * 0x100 + b2;
    assert FromBytes(b0, b1, b2, b3) == d * 0x100 + b3;
    LastByte(b0, b1);
    LastByte(c, b2);
    LastByte(d, b3);
    hide BigEndian;
    BigEndianLast(d * 0x100 + b3, 4);
    BigEndianLast(d, 3);
    BigEndianLast(c, 2);
    BigEndianLast(b0, 1);
    hide FromBytes;
  }

  lemma LastByte(q: nat, b: byte)
    ensures (q * 0x100 + b) / 0x100 == q && (q * 0x100 + b) % 0x100 == b
  {
  }

  // ---------------------------------------------------------------- the registers over the rounds

  /** From the third round on, b, c and d are the last three values of a, and f, g and h those of e. */
  lemma RegistersShift(v: Vars, k: seq<word>, block: Block, t: nat)
    requires 3 <= t <= 64 == |k|
    ensures var r, a, b, c := Rounds(v, k, block, t), Rounds(v, k, block, t - 1), Rounds(v, k, block, t - 2),
        Rounds(v, k, block, t - 3);
      r.b == a.a && r.c == b.a && r.d == c.a && r.f == a.e && r.g == b.e && r.h == c.e
  {
    hide Add, BigSigma0, BigSigma1, Ch, Maj, Schedule;
    NextRound(v, k, block, t);
    NextRound(v, k, block, t - 1);
    NextRound(v, k, block, t - 2);
    hide Rounds, Round;
  }

  lemma NextRound(v: Vars, k: seq<word>, block: Block, t: nat)
    requires 0 < t <= 64 == |k|
    ensures var r, a := Rounds(v, k, block, t), Rounds(v, k, block, t - 1);
      r.b == a.a && r.c == a.b && r.d == a.c && r.f == a.e && r.g == a.f && r.h == a.g
  {
    hide Add, BigSigma0, BigSigma1, Ch, Maj, Schedule;
  }

  // ---------------------------------------------------------------- padding

  // The value of bytes, highest first.
  function Number(s: seq<byte>): nat {
    if s == [] then 0 else Number(s[..|s| - 1]) * 0x100 + s[|s| - 1]
  }

  lemma {:induction false} BigEndianNumber(x: nat, n: nat)
    requires x < Power(0x100, n)
    ensures Number(BigEndian(x, n)) == x
    decreases n
  {
    if n > 0 {
      BigEndianLast(x, n);
      QuotientSmall(x, Power(0x100, n - 1));
      BigEndianNumber(x / 0x100, n - 1);
      NumberSnoc(BigEndian(x / 0x100, n - 1), x % 0x100);
    }
    hide BigEndian, Number;
  }

  lemma QuotientSmall(x: nat, p: nat)
    requires x < 0x100 * p
    ensures x / 0x100 < p
  {
  }

  lemma NumberSnoc(s: seq<byte>, b: byte)
    ensures Number(s + [b]) == Number(s) * 0x100 + b
  {
    assert (s + [b])[..|s|] == s;
  }

  lemma EightBytes()
    ensures Power(0x100, 8) == 0x1_0000_0000_0000_0000
  {
    assert Power(0x100, 4) == 0x1_0000_0000;
    assert Power(0x100, 8) == 0x100 * (0x100 * (0x100 * (0x100 * Power(0x100, 4))));
  }

  /**
   * Padding can be undone: the last eight bytes are the number of bits of the message, which is in
   * front, a single 1 bit follows it, then zeros, as few as fill a block.
   */
  lemma PadUndone(m: seq<byte>)
    requires 8 * |m| < 0x1_0000_0000_0000_0000
    ensures var p, end := Pad(m), |Pad(m)| - 8;
      && |m| < end && |p| % 64 == 0 && |p| < |m| + 9 + 64
      && Number(p[end..]) == 8 * |m| && p[..|m|] == m && p[|m|] == 128
      && forall i :: |m| < i < end ==> p[i] == 0
  {
    hide BigEndian, Number;
    EightBytes();
    BigEndianNumber(8 * |m|, 8);
    var p, end := Pad(m), |Pad(m)| - 8;
    assert p[end..] == BigEndian(8 * |m|, 8);
    BlocksFilled(|m|, ZeroBytes(|m|));
  }

  lemma BlocksFilled(n: nat, k: nat)
    requires (n + 1 + k) % 64 == 56
    ensures (n + 1 + k + 8) % 64 == 0
  {
  }
}
