/**
 * The incremental interface of src/base/hash_libtomcrypt.cpp: bytes are buffered and compressed
 * block by block, in whatever pieces they come.
 */
module Sha256Stream {
  import opened Base
  import opened Words
  import opened BlockIteration
  import opened Sha256Spec
  import opened Sha256Rounds

  const WRAP64 := 0x1_0000_0000_0000_0000

  // ---------------------------------------------------------------- the length field

  // The low n bytes do not see multiples of 256^n.
  lemma {:induction false} BigEndianWraps(x: nat, q: nat, n: nat)
    ensures BigEndian(q * Power(0x100, n) + x, n) == BigEndian(x, n)
    decreases n
  {
    if n > 0 {
      var t := q * Power(0x100, n - 1);
      assert q * Power(0x100, n) == 0x100 * t;
      assert (0x100 * t + x) / 0x100 == t + x / 0x100 && (0x100 * t + x) % 0x100 == x % 0x100;
      BigEndianWraps(x / 0x100, q, n - 1);
    }
  }

  lemma PowerOf64()
    ensures Power(0x100, 8) == WRAP64
  {
    assert Power(0x100, 4) == 0x1_0000_0000;
    assert Power(0x100, 8) == 0x1_0000_0000 * Power(0x100, 4);
  }

  lemma LengthField(x: nat)
    ensures BigEndian(x % WRAP64, 8) == BigEndian(x, 8)
  {
    hide BigEndian;
    PowerOf64();
    BigEndianWraps(x % WRAP64, x / WRAP64, 8);
    assert x == x / WRAP64 * WRAP64 + x % WRAP64;
  }

  // The bits in n blocks, as the 64-bit counter holds them.
  function BitsOf(n: int): int {
    512 * n % WRAP64
  }

  lemma LengthGrows(n: nat)
    ensures (BitsOf(n) + 512) % WRAP64 == BitsOf(n + 1)
  {
    ModAdd(512 * n, 512);
  }

  lemma ModAdd(x: nat, y: nat)
    ensures (x % WRAP64 + y) % WRAP64 == (x + y) % WRAP64
  {
    var q, r := x / WRAP64, (x % WRAP64 + y) / WRAP64;
    assert x + y == (q + r) * WRAP64 + (x % WRAP64 + y) % WRAP64;
  }

  // How many zero bytes the two padding loops add when n bytes of the block are in use.
  lemma ZeroBytesSplit(n: nat, c: nat)
    requires c < 64 && n % 64 == c
    ensures ZeroBytes(n) == if c + 1 > 56 then (64 - (c + 1)) + 56 else 56 - (c + 1)
  {
  }

  lemma ZerosAdd(j: nat, k: nat)
    ensures Zeros(j) + Zeros(k) == Zeros(j + k)
  {
  }

  method Store64(x: nat) returns (y: array<byte>)
    ensures fresh(y) && y[..] == BigEndian(x, 8)
  {
    hide BigEndian, ShiftBytes;
    y := new byte[8](_ => 0);
    for i := 0 to 8
      invariant y[..i] == BigEndian(x, 8)[..i]
    {
      BigEndianAt(x, 8, i);
      y[i] := ShiftBytes(x, 7 - i) % 0x100;
    }
  }

  // x >> 8 * k
  function ShiftBytes(x: nat, k: nat): nat
    decreases k
  {
    if k == 0 then x else ShiftBytes(x / 0x100, k - 1)
  }

  lemma {:induction false} BigEndianAt(x: nat, n: nat, i: nat)
    requires i < n
    ensures BigEndian(x, n)[i] == ShiftBytes(x, n - 1 - i) % 0x100
    decreases n
  {
    if i < n - 1 {
      BigEndianAt(x / 0x100, n - 1, i);
    }
  }

  lemma TotalBits(m: seq<byte>, blocks: nat, curlen: nat)
    requires |m| == 64 * blocks + curlen
    ensures var length := (BitsOf(blocks) + curlen * 8) % WRAP64;
      length >= 0 && BigEndian(length, 8) == BigEndian(8 * |m|, 8)
  {
    hide BigEndian;
    ModAdd(512 * blocks, curlen * 8);
    assert 512 * blocks + curlen * 8 == 8 * |m|;
    LengthField(8 * |m|);
  }

  lemma ChainStarts()
    ensures Chain(Compress, H0, [H0], [])
  {
    hide Compress, H0;
  }

  lemma DigestOfChain(chain: seq<Hash>, m: seq<byte>)
    requires Chain(Compress, H0, chain, Pad(m)) && |Pad(m)| == 64 * (|chain| - 1)
    ensures Digest(m) == Bytes(chain[|chain| - 1])
  {
    hide Compress, Pad;
    ChainIterates(Compress, H0, chain, Pad(m), |chain| - 1);
    assert |Pad(m)| / 64 == |chain| - 1;
  }

  lemma TakeMore(data: seq<byte>, at: nat, left: nat, n: nat)
    requires at + left <= |data| && n <= left
    ensures data[..at + n] == data[..at] + data[at..at + left][..n]
  {
  }

  method NewState(h: Hash) returns (state: array<word>)
    ensures fresh(state) && state[..] == h
  {
    state := new word[8](i requires 0 <= i < 8 => h[i]);
  }

  lemma NoBits()
    ensures BitsOf(0) == 0
  {
  }

  class Sha256State {
    const state: array<word>
    const buf: array<byte>
    var curlen: nat
    var length: nat
    // Everything absorbed so far, and the hash values after each of its compressed blocks.
    ghost var message: seq<byte>
    ghost var chain: seq<Hash>

    // The compressed blocks of `message` and its buffered rest.
    ghost predicate Holds()
      reads this, state, buf
    {
      && state.Length == 8 && buf.Length == 64 && curlen <= 64
      && Chain(Compress, H0, chain, message)
      && |message| == 64 * (|chain| - 1) + curlen
      && state[..] == chain[|chain| - 1]
      && buf[..curlen] == message[|message| - curlen..]
    }

    ghost predicate Valid()
      reads this, state, buf
    {
      Holds() && curlen < 64 && length == BitsOf(|chain| - 1)
    }

    constructor ()
      ensures Valid() && message == [] && fresh(state) && fresh(buf)
    {
      var words := NewState(H0);
      state := words;
      buf := new byte[64](_ => 0);
      curlen := 0;
      length := 0;
      message := [];
      chain := [H0];
      new;
      hide Valid, Holds, H0;
      Empty();
    }

    lemma Empty()
      requires state[..] == H0 && buf.Length == 64 && curlen == 0 && length == 0
      requires message == [] && chain == [H0]
      ensures Valid()
    {
      hide Compress, Chain, H0, BitsOf;
      ChainStarts();
      NoBits();
      assert buf[..curlen] == message[|message| - curlen..];
    }

    // Compress a full buffer.
    method Flush()
      requires Holds() && curlen == 64
      modifies this`curlen, this`chain, state
      ensures Holds() && curlen == 0 && |chain| == old(|chain|) + 1
    {
      hide Compress;
      var block := buf[..];
      assert block == message[|message| - 64..];
      ShaCompress(state, block);
      ChainNext(Compress, H0, chain, message, block, state[..]);
      curlen := 0;
      chain := chain + [state[..]];
    }

    // Copy `part` behind what is buffered.
    method Buffer(part: seq<byte>)
      requires Holds() && curlen + |part| <= 64
      modifies this`curlen, this`message, buf
      ensures Holds() && curlen == old(curlen) + |part| && message == old(message) + part
    {
      hide Compress;
      forall k | 0 <= k < |part| {
        buf[curlen + k] := part[k];
      }
      ChainGrows(Compress, H0, chain, message, part);
      ghost var tail := message[|message| - curlen..];
      assert buf[..curlen] == tail;
      assert buf[..curlen + |part|] == tail + part;
      curlen := curlen + |part|;
      message := message + part;
      assert message[|message| - curlen..] == tail + part;
    }

    // Compress a block straight from the input.
    method Absorb(block: Block)
      requires Holds() && curlen == 0
      modifies this`message, this`chain, state
      ensures Holds() && message == old(message) + block && |chain| == old(|chain|) + 1
    {
      hide Compress;
      ShaCompress(state, block);
      ChainGrows(Compress, H0, chain, message, block);
      message := message + block;
      ChainNext(Compress, H0, chain, message, block, state[..]);
      chain := chain + [state[..]];
    }

    /**
     * sha256_update. The length is passed on as a 32-bit integer, so the bytes absorbed are all
     * of `data` exactly when there are fewer than 2^32 of them.
     */
    method Process(data: seq<byte>)
      requires Valid()
      modifies this`curlen, this`length, this`message, this`chain, state, buf
      ensures Valid()
      ensures message == old(message) + data[..|data| % 0x1_0000_0000]
      ensures |data| < 0x1_0000_0000 ==> message == old(message) + data
    {
      hide Compress, Valid, Holds;
      var inlen := |data| % 0x1_0000_0000;
      var at := 0;
      while inlen > 0
        invariant Valid() && inlen >= 0 && at + inlen == |data| % 0x1_0000_0000
        invariant message == old(message) + data[..at]
      {
        var n := Piece(data[at..at + inlen]);
        TakeMore(data, at, inlen, n);
        at := at + n;
        inlen := inlen - n;
      }
      assert |data| < 0x1_0000_0000 ==> data[..at] == data;
    }

    // One round of the loop: a whole block from the input, or a piece into the buffer.
    method Piece(rest: seq<byte>) returns (n: nat)
      requires Valid() && rest != []
      modifies this`curlen, this`length, this`message, this`chain, state, buf
      ensures Valid() && 0 < n <= |rest| && message == old(message) + rest[..n]
    {
      hide Compress, BitsOf;
      if curlen == 0 && |rest| >= 64 {
        n := 64;
        LengthGrows(|chain| - 1);
        Absorb(rest[..64]);
        length := (length + 512) % WRAP64;
      } else {
        n := if |rest| < 64 - curlen then |rest| else 64 - curlen;
        Buffer(rest[..n]);
        if curlen == 64 {
          LengthGrows(|chain| - 1);
          Flush();
          length := (length + 512) % WRAP64;
        }
      }
    }

    // Zero bytes up to `limit`.
    method PadTo(limit: nat)
      requires Holds() && curlen <= limit <= 64
      modifies this`curlen, this`message, buf
      ensures Holds() && curlen == limit
      ensures message == old(message) + Zeros(limit - old(curlen))
    {
      hide Compress;
      while curlen < limit
        invariant Holds() && old(curlen) <= curlen <= limit
        invariant message == old(message) + Zeros(curlen - old(curlen))
      {
        ZerosAdd(curlen - old(curlen), 1);
        assert Zeros(1) == [0];
        Buffer([0]);
      }
    }

    // Everything of sha_done up to the length field: what was absorbed, a 1 bit, the zeros.
    method PadMessage()
      requires Holds() && curlen < 64
      modifies this`curlen, this`message, this`chain, state, buf
      ensures Holds() && curlen == 56
      ensures message == old(message) + [0x80] + Zeros(ZeroBytes(|old(message)|))
    {
      hide Compress;
      ZeroBytesSplit(|message|, curlen);
      Buffer([0x80]);
      ghost var first := 0;
      if curlen > 56 {
        first := 64 - curlen;
        PadTo(64);
        Flush();
      }
      ghost var second := 56 - curlen;
      PadTo(56);
      ZerosAdd(first, second);
      assert Zeros(0) == [];
      assert message == old(message) + [0x80] + (Zeros(first) + Zeros(second));
    }

    /** sha_done: the digest is the one-shot hash of everything absorbed. */
    method Done(out: array<byte>)
      requires Valid() && out.Length == 32 && out != buf
      modifies this`curlen, this`length, this`message, this`chain, state, buf, out
      ensures out[..] == Digest(old(message))
    {
      hide Compress, Digest, Pad, Bytes, BigEndian, Chain, BitsOf;
      ghost var m := message;
      TotalBits(m, |chain| - 1, curlen);
      length := (length + curlen * 8) % WRAP64;
      PadMessage();
      AppendLength(m);
      Flush();
      DigestOfChain(chain, m);
      StoreWords(out);
    }

    method AppendLength(ghost m: seq<byte>)
      requires Holds() && curlen == 56 && BigEndian(length, 8) == BigEndian(8 * |m|, 8) && length >= 0
      requires message == m + [0x80] + Zeros(ZeroBytes(|m|))
      modifies this`curlen, this`message, buf
      ensures Holds() && curlen == 64 && message == Pad(m) && chain == old(chain)
    {
      hide Compress;
      var field := Store64(length);
      Buffer(field[..]);
    }

    method StoreWords(out: array<byte>)
      requires state.Length == 8 && out.Length == 32
      modifies out
      ensures out[..] == Bytes(state[..])
    {
      for i := 0 to 8
        invariant out[..4 * i] == Bytes(state[..i])
      {
        assert state[..i + 1][..i] == state[..i];
        Store32(state[i], out, 4 * i);
      }
      assert state[..8] == state[..];
    }
  }

  method Store32(x: word, y: array<byte>, at: nat)
    requires at + 4 <= y.Length
    modifies y
    ensures y[..at + 4] == old(y[..at]) + WordBytes(x)
  {
    y[at] := x / 0x100_0000 % 0x100;
    y[at + 1] := x / 0x1_0000 % 0x100;
    y[at + 2] := x / 0x100 % 0x100;
    y[at + 3] := x % 0x100;
  }

  function Joined(pieces: seq<seq<byte>>): seq<byte>
    decreases |pieces|
  {
    if pieces == [] then [] else Joined(pieces[..|pieces| - 1]) + pieces[|pieces| - 1]
  }

  lemma JoinedNext(pieces: seq<seq<byte>>, i: nat)
    requires i < |pieces|
    ensures Joined(pieces[..i + 1]) == Joined(pieces[..i]) + pieces[i]
  {
    assert pieces[..i + 1][..i] == pieces[..i];
  }

  lemma JoinedEnds(pieces: seq<seq<byte>>)
    ensures Joined(pieces[..0]) == [] && Joined(pieces[..|pieces|]) == Joined(pieces)
  {
    assert pieces[..|pieces|] == pieces;
  }

  /** Hashing a message in any pieces is hashing the whole message at once. */
  method HashPieces(pieces: seq<seq<byte>>, out: array<byte>)
    requires out.Length == 32
    requires forall k :: 0 <= k < |pieces| ==> |pieces[k]| < 0x1_0000_0000
    modifies out
    ensures out[..] == Digest(Joined(pieces))
  {
    hide Digest, Joined, Compress;
    JoinedEnds(pieces);
    var ctxt := new Sha256State();
    for i := 0 to |pieces|
      invariant ctxt.Valid() && ctxt.message == Joined(pieces[..i])
      invariant fresh(ctxt) && fresh(ctxt.state) && fresh(ctxt.buf)
    {
      JoinedNext(pieces, i);
      ctxt.Process(pieces[i]);
    }
    ctxt.Done(out);
  }
}
