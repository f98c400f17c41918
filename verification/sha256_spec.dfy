/** The iteration of a compression function over the 64-byte blocks of a message. */
module BlockIteration {
  import opened Base
  import opened Words

  type Hash = h: seq<word> | |h| == 8 witness [0, 0, 0, 0, 0, 0, 0, 0]
  type Block = b: seq<byte> | |b| == 64 witness seq(64, _ => 0)

  type Compression = (Hash, Block) -> Hash

  /** The hash value after `n` blocks of `m`. */
  function Iterate(f: Compression, h: Hash, m: seq<byte>, n: nat): Hash
    requires 64 * n <= |m|
    decreases n
  {
    if n == 0 then h else f(Iterate(f, h, m, n - 1), m[64 * n - 64..64 * n])
  }

  /** `hs` lists the hash values between the first blocks of `m`. */
  ghost predicate Chain(f: Compression, h: Hash, hs: seq<Hash>, m: seq<byte>) {
    && hs != [] && hs[0] == h && 64 * (|hs| - 1) <= |m|
    && forall i {:trigger Link(f, hs, m, i)} :: 0 <= i < |hs| - 1 ==> Link(f, hs, m, i)
  }

  ghost predicate Link(f: Compression, hs: seq<Hash>, m: seq<byte>, i: nat)
    requires i + 1 < |hs| && 64 * i + 64 <= |m|
  {
    hs[i + 1] == f(hs[i], m[64 * i..64 * i + 64])
  }

  lemma ChainGrows(f: Compression, h: Hash, hs: seq<Hash>, m: seq<byte>, more: seq<byte>)
    requires Chain(f, h, hs, m)
    ensures Chain(f, h, hs, m + more)
  {
    forall i {:trigger Link(f, hs, m + more, i)} | 0 <= i < |hs| - 1 ensures Link(f, hs, m + more, i) {
      assert Link(f, hs, m, i);
      assert (m + more)[64 * i..64 * i + 64] == m[64 * i..64 * i + 64];
    }
  }

  lemma ChainNext(f: Compression, h: Hash, hs: seq<Hash>, m: seq<byte>, block: Block, next: Hash)
    requires Chain(f, h, hs, m) && next == f(hs[|hs| - 1], block)
    requires 64 * |hs| <= |m| && m[64 * |hs| - 64..64 * |hs|] == block
    ensures Chain(f, h, hs + [next], m)
  {
    forall i {:trigger Link(f, hs + [next], m, i)} | 0 <= i < |hs| ensures Link(f, hs + [next], m, i) {
      if i < |hs| - 1 {
        assert Link(f, hs, m, i);
      }
    }
  }

  lemma {:induction false} ChainIterates(f: Compression, h: Hash, hs: seq<Hash>, m: seq<byte>, i: nat)
    requires Chain(f, h, hs, m) && i < |hs|
    ensures hs[i] == Iterate(f, h, m, i)
    decreases i
  {
    if i > 0 {
      ChainIterates(f, h, hs, m, i - 1);
      assert Link(f, hs, m, i - 1);
    }
  }
}

/** SHA-256 as FIPS 180-4 defines it, on messages of whole bytes. */
module Sha256Spec {
  import opened Base
  import opened Words
  import opened BlockIteration

  // Section 4.2.2, eight constants a row.
  function KRow(r: nat): (row: seq<word>)
    requires r < 8
    ensures |row| == 8
  {
    match r
    case 0 => [0x428a2f98, 0x71374491, 0xb5c0fbcf, 0xe9b5dba5, 0x3956c25b, 0x59f111f1, 0x923f82a4, 0xab1c5ed5]
    case 1 => [0xd807aa98, 0x12835b01, 0x243185be, 0x550c7dc3, 0x72be5d74, 0x80deb1fe, 0x9bdc06a7, 0xc19bf174]
    case 2 => [0xe49b69c1, 0xefbe4786, 0x0fc19dc6, 0x240ca1cc, 0x2de92c6f, 0x4a7484aa, 0x5cb0a9dc, 0x76f988da]
    case 3 => [0x983e5152, 0xa831c66d, 0xb00327c8, 0xbf597fc7, 0xc6e00bf3, 0xd5a79147, 0x06ca6351, 0x14292967]
    case 4 => [0x27b70a85, 0x2e1b2138, 0x4d2c6dfc, 0x53380d13, 0x650a7354, 0x766a0abb, 0x81c2c92e, 0x92722c85]
    case 5 => [0xa2bfe8a1, 0xa81a664b, 0xc24b8b70, 0xc76c51a3, 0xd192e819, 0xd6990624, 0xf40e3585, 0x106aa070]
    case 6 => [0x19a4c116, 0x1e376c08, 0x2748774c, 0x34b0bcb5, 0x391c0cb3, 0x4ed8aa4a, 0x5b9cca4f, 0x682e6ff3]
    case _ => [0x748f82ee, 0x78a5636f, 0x84c87814, 0x8cc70208, 0x90befffa, 0xa4506ceb, 0xbef9a3f7, 0xc67178f2]
  }

  function KRows(n: nat): (k: seq<word>)
    requires n <= 8
    ensures |k| == 8 * n
  {
    if n == 0 then [] else KRows(n - 1) + KRow(n - 1)
  }

  const K: seq<word> := KRows(8)

  // Section 5.3.3
  const H0: Hash := [
    0x6a09e667, 0xbb67ae85, 0x3c6ef372, 0xa54ff53a, 0x510e527f, 0x9b05688c, 0x1f83d9ab, 0x5be0cd19
  ]

  lemma TableSizes()
    ensures |K| == 64 && |H0| == 8
  {
  }

  // Section 3.2
  function RotR(x: word, n: nat): word
    requires n <= 32
  {
    Or(Shr(x, n), Shl(x, 32 - n))
  }

  // Section 4.1.2
  function Ch(x: word, y: word, z: word): word {
    Xor(And(x, y), And(Not(x), z))
  }

  function Maj(x: word, y: word, z: word): word {
    Xor(Xor(And(x, y), And(x, z)), And(y, z))
  }

  function BigSigma0(x: word): word {
    Xor(Xor(RotR(x, 2), RotR(x, 13)), RotR(x, 22))
  }

  function BigSigma1(x: word): word {
    Xor(Xor(RotR(x, 6), RotR(x, 11)), RotR(x, 25))
  }

  function SmallSigma0(x: word): word {
    Xor(Xor(RotR(x, 7), RotR(x, 18)), Shr(x, 3))
  }

  function SmallSigma1(x: word): word {
    Xor(Xor(RotR(x, 17), RotR(x, 19)), Shr(x, 10))
  }

  // ---------------------------------------------------------------- section 6.2.2, one block

  function FromBytes(b0: int, b1: int, b2: int, b3: int): word
    requires 0 <= b0 < 0x100 && 0 <= b1 < 0x100 && 0 <= b2 < 0x100 && 0 <= b3 < 0x100
  {
    b0 * 0x100_0000 + b1 * 0x1_0000 + b2 * 0x100 + b3
  }

  function BlockWord(block: Block, t: nat): word
    requires t < 16
  {
    FromBytes(block[4 * t], block[4 * t + 1], block[4 * t + 2], block[4 * t + 3])
  }

  function ScheduleStep(w2: word, w7: word, w15: word, w16: word): word {
    Add(Add(Add(SmallSigma1(w2), w7), SmallSigma0(w15)), w16)
  }

  // Step 1: the message schedule.
  function Schedule(block: Block, t: nat): word
    requires t < 64
  {
    if t < 16 then BlockWord(block, t)
    else
      ScheduleStep(Schedule(block, t - 2), Schedule(block, t - 7),
                   Schedule(block, t - 15), Schedule(block, t - 16))
  }

  // The eight working variables.
  datatype Vars = Vars(a: word, b: word, c: word, d: word, e: word, f: word, g: word, h: word)

  // Step 3, for one t.
  function Round(v: Vars, k: word, w: word): Vars {
    var t1 := Add(Add(Add(Add(v.h, BigSigma1(v.e)), Ch(v.e, v.f, v.g)), k), w);
    var t2 := Add(BigSigma0(v.a), Maj(v.a, v.b, v.c));
    Vars(Add(t1, t2), v.a, v.b, v.c, Add(v.d, t1), v.e, v.f, v.g)
  }

  // `k` is the table of constants.
  function Rounds(v: Vars, k: seq<word>, block: Block, t: nat): Vars
    requires t <= 64 == |k|
    decreases t
  {
    if t == 0 then v
    else Round(Rounds(v, k, block, t - 1), k[t - 1], Schedule(block, t - 1))
  }

  function VarsOf(h: Hash): Vars
  {
    Vars(h[0], h[1], h[2], h[3], h[4], h[5], h[6], h[7])
  }

  function WordsOf(v: Vars): Hash
  {
    [v.a, v.b, v.c, v.d, v.e, v.f, v.g, v.h]
  }

  function AddWords(h: Hash, w: Hash): Hash {
    seq(8, i requires 0 <= i < 8 => Add(h[i], w[i]))
  }

  // Steps 2 and 4.
  function CompressWith(k: seq<word>, h: Hash, block: Block): Hash
    requires |k| == 64
  {
    AddWords(h, WordsOf(Rounds(VarsOf(h), k, block, |k|)))
  }

  function Compress(h: Hash, block: Block): Hash {
    TableSizes();
    CompressWith(K, h, block)
  }

  // ---------------------------------------------------------------- whole messages

  // The n low bytes of x, most significant first.
  function BigEndian(x: nat, n: nat): (s: seq<byte>)
    ensures |s| == n
    decreases n
  {
    if n == 0 then [] else BigEndian(x / 0x100, n - 1) + [x % 0x100]
  }

  // Section 5.1.1: a 1 bit, the fewest 0 bits that leave 64 bits of the last block, the length.
  function ZeroBytes(n: nat): (k: nat)
    ensures (n + 1 + k) % 64 == 56 && k < 64
  {
    (55 - n) % 64
  }

  function Zeros(k: nat): (s: seq<byte>)
    ensures |s| == k
  {
    seq(k, _ => 0)
  }

  function Pad(m: seq<byte>): (p: seq<byte>)
    ensures |p| == |m| + 1 + ZeroBytes(|m|) + 8
  {
    m + [0x80] + Zeros(ZeroBytes(|m|)) + BigEndian(8 * |m|, 8)
  }

  function WordBytes(x: word): (s: seq<byte>)
    ensures |s| == 4
  {
    [x / 0x100_0000 % 0x100, x / 0x1_0000 % 0x100, x / 0x100 % 0x100, x % 0x100]
  }

  function Bytes(h: seq<word>): (s: seq<byte>)
    ensures |s| == 4 * |h|
    decreases |h|
  {
    if h == [] then [] else Bytes(h[..|h| - 1]) + WordBytes(h[|h| - 1])
  }

  /** The digest; the standard defines it for messages below 2^64 bits. */
  function Digest(m: seq<byte>): (d: seq<byte>)
    ensures |d| == 32
  {
    TableSizes();
    var p := Pad(m);
    Bytes(Iterate(Compress, H0, p, |p| / 64))
  }
}
