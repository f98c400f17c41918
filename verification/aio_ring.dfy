/**
 * The growing ring buffer inside ASYNCIO (src/base/aio.cpp).
 *
 * `Ring` is the value the buffer stands for; `AsyncBuffer` keeps it in an array with two
 * positions, as the source does. Positions and sizes are 32-bit: that no arithmetic on them
 * wraps is part of what is verified.
 */
module AioRing {
  import opened Base

  const ASYNC_BUFSIZE: uint32 := 8 * 1024
  const ASYNC_LOCAL_BUFSIZE: uint32 := 64 * 1024
  const MAX_BUFSIZE := 0x8000_0000

  // The sizes that doubling 8 KiB runs through before a 32-bit integer wraps.
  ghost predicate RingSize(n: int) {
    0x2000 <= n <= MAX_BUFSIZE && exists k: nat :: k <= 18 && n == 0x2000 * Power(2, k)
  }

  lemma PowerOfTwo18()
    ensures Power(2, 0) == 1 && Power(2, 18) == 0x4_0000
  {
    assert Power(2, 6) == 64;
    assert Power(2, 12) == 64 * Power(2, 6);
    assert Power(2, 18) == 64 * Power(2, 12);
  }

  lemma DoubledSize(n: int)
    requires RingSize(n) && n < MAX_BUFSIZE
    ensures RingSize(2 * n)
  {
    var k: nat :| k <= 18 && n == 0x2000 * Power(2, k);
    PowerOfTwo18();
    assert 2 * n == 0x2000 * Power(2, k + 1);
    PowerGrows(2, k + 1, 18);
  }

  /** The smallest size reached from `cur` by doubling that is at least `need`. */
  ghost function NextSize(cur: nat, need: nat): (r: nat)
    requires RingSize(cur) && need <= MAX_BUFSIZE
    ensures RingSize(r) && r >= need && r >= cur
    ensures r > cur ==> r < 2 * need
    decreases MAX_BUFSIZE - cur
  {
    if cur >= need then cur else (DoubledSize(cur); NextSize(2 * cur, need))
  }

  // n rounds of the loop body `cur_size *= 2` on 32-bit integers.
  function Doubled(cur: nat, n: nat): nat
    decreases n
  {
    if n == 0 then cur else Doubled(2 * cur % 0x1_0000_0000, n - 1)
  }

  lemma {:induction false} DoubledStaysSmall(cur: nat, n: nat)
    requires RingSize(cur) || cur == 0
    ensures RingSize(Doubled(cur, n)) || Doubled(cur, n) == 0
    decreases n
  {
    if n > 0 {
      if 0 < cur < MAX_BUFSIZE {
        DoubledSize(cur);
      }
      DoubledStaysSmall(2 * cur % 0x1_0000_0000, n - 1);
    }
  }

  lemma {:induction false} DoubledReaches(cur: nat, need: nat) returns (n: nat)
    requires RingSize(cur) && need <= MAX_BUFSIZE
    ensures Doubled(cur, n) >= need
    decreases MAX_BUFSIZE - cur
  {
    if cur >= need {
      n := 0;
    } else {
      DoubledSize(cur);
      var m := DoubledReaches(2 * cur, need);
      n := m + 1;
      DoubledOnce(cur, m);
    }
  }

  lemma DoubledOnce(cur: nat, n: nat)
    requires cur < MAX_BUFSIZE
    ensures Doubled(cur, n + 1) == Doubled(2 * cur, n)
  {
  }

  // The loop for a needed size ends after n rounds.
  ghost predicate EndsAt(cur: nat, need: nat, n: nat) {
    Doubled(cur, n) >= need && forall k: nat :: k < n ==> Doubled(cur, k) < need
  }

  lemma {:induction false} EndsByThen(cur: nat, need: nat, n: nat) returns (first: nat)
    requires Doubled(cur, n) >= need
    ensures EndsAt(cur, need, first)
    decreases n
  {
    if k: nat :| k < n && Doubled(cur, k) >= need {
      first := EndsByThen(cur, need, k);
    } else {
      first := n;
    }
  }

  // Whether any number of rounds is enough.
  lemma Reachable(cur: nat, need: nat)
    requires RingSize(cur) && 0 < need
    ensures need <= MAX_BUFSIZE ==> exists n: nat :: EndsAt(cur, need, n)
    ensures need > MAX_BUFSIZE ==> forall n: nat :: Doubled(cur, n) < need
    ensures forall n: nat :: Doubled(cur, n) <= MAX_BUFSIZE
  {
    forall n: nat ensures Doubled(cur, n) <= MAX_BUFSIZE {
      DoubledStaysSmall(cur, n);
    }
    if need <= MAX_BUFSIZE {
      var n := DoubledReaches(cur, need);
      var first := EndsByThen(cur, need, n);
    }
  }

  /** Of all 32-bit needs the loop ends exactly for those up to 2^31; above, the size wraps to 0. */
  lemma DoublingEndsIff(cur: nat, need: nat)
    requires RingSize(cur) && need < 0x1_0000_0000
    ensures (exists n: nat :: EndsAt(cur, need, n)) <==> need <= MAX_BUFSIZE
  {
    if need == 0 {
      assert EndsAt(cur, 0, 0);
    } else {
      Reachable(cur, need);
    }
  }

  // buffer_len(aio) + size + 1 on unsigned ints
  function NeedOf(len: nat, size: uint32): nat {
    (len + size as int + 1) % 0x1_0000_0000
  }

  /**
   * What growing for `size` more bytes comes to, `total` counting the place that stays empty. It
   * ends with room for all of them exactly up to 2^31; from there it does not end, and from 2^32,
   * where the needed size itself wraps, it ends without the room.
   */
  lemma GrowthOutcome(cur: nat, len: nat, size: uint32)
    requires RingSize(cur) && len < cur
    ensures var total, need := len + size as int + 1, NeedOf(len, size);
      && ((exists n: nat :: EndsAt(cur, need, n) && Doubled(cur, n) >= total) <==> total <= MAX_BUFSIZE)
      && ((forall n: nat :: !EndsAt(cur, need, n)) <==> MAX_BUFSIZE < total < 0x1_0000_0000)
      && ((exists n: nat :: EndsAt(cur, need, n) && Doubled(cur, n) < total) <==> total >= 0x1_0000_0000)
  {
    hide Doubled;
    var total, need := len + size as int + 1, NeedOf(len, size);
    if need == 0 {
      assert Doubled(cur, 0) == cur by { DoubledNone(cur); }
      assert EndsAt(cur, need, 0);
    }
    Reachable(cur, if need == 0 then 1 else need);
  }

  lemma DoubledNone(cur: nat)
    ensures Doubled(cur, 0) == cur
  {
  }

  // A position below 2 * size, brought back below size.
  function Wrapped(pos: int, size: int): int {
    if pos < size then pos else pos - size
  }

  lemma ModWraps(pos: int, size: int)
    requires 0 <= pos < 2 * size
    ensures pos % size == Wrapped(pos, size)
  {
    if pos >= size {
      assert pos == 1 * size + (pos - size);
    }
  }

  /** What the buffer stands for: its capacity, where reading starts, and the queued bytes. */
  datatype Ring = Ring(size: nat, readPos: nat, contents: seq<byte>) {

    // Never full, so that equal positions mean empty.
    ghost predicate Valid() {
      RingSize(size) && readPos < size && |contents| < size
    }

    ghost function WritePos(): (r: nat)
      requires Valid()
    {
      Wrapped(readPos + |contents|, size)
    }

    predicate CanWrite(data: seq<byte>) {
      |contents| + |data| + 1 <= MAX_BUFSIZE
    }

    /** Queue `data`, moving to a larger buffer when it would not stay below the capacity. */
    ghost function Write(data: seq<byte>): (r: Ring)
      requires Valid() && CanWrite(data)
      ensures r.Valid() && r.contents == contents + data
    {
      if |data| < size - |contents| then
        Ring(size, readPos, contents + data)
      else
        Ring(NextSize(size, |contents| + |data| + 1), 0, contents + data)
    }

    /** How many bytes one round of the drain loop takes. */
    function Chunk(): (n: nat)
      ensures n <= |contents| && n <= 0x1_0000
      ensures contents != [] ==> n > 0
    {
      Min(|contents|, 0x1_0000)
    }

    /** Drop the bytes that one round of the drain loop takes. */
    ghost function Drop(): (r: Ring)
      requires Valid()
      ensures r.Valid() && contents == contents[..Chunk()] + r.contents
    {
      Ring(size, Wrapped(readPos + Chunk(), size), contents[Chunk()..])
    }
  }

  /** Two stretches of the buffer, as offsets; None is the null pointer. */
  datatype Buffers = Buffers(buf1: Option<uint32>, len1: uint32, buf2: Option<uint32>, len2: uint32)

  method MemCopy(dst: array<byte>, at: nat, src: seq<byte>)
    requires at + |src| <= dst.Length
    modifies dst
    ensures dst[..] == old(dst[..at]) + src + old(dst[at + |src|..])
  {
    forall i | 0 <= i < |src| {
      dst[at + i] := src[i];
    }
  }

  /** The doubling loop. */
  method NextBufferSize(curSize: uint32, needSize: uint32) returns (size: uint32)
    requires RingSize(curSize as int) && needSize as int <= MAX_BUFSIZE
    ensures size as int == NextSize(curSize as int, needSize as int)
  {
    size := curSize;
    while size < needSize
      invariant RingSize(size as int)
      invariant NextSize(size as int, needSize as int) == NextSize(curSize as int, needSize as int)
      decreases MAX_BUFSIZE - size as int
    {
      DoubledSize(size as int);
      size := size * 2;
    }
  }

  /** The bytes between two positions of a circular buffer. */
  ghost function Live(buf: seq<byte>, r: int, w: int): (c: seq<byte>)
    requires 0 <= r < |buf| && 0 <= w < |buf|
    ensures |c| < |buf|
  {
    if r <= w then buf[r..w] else buf[r..] + buf[..w]
  }

  // Bytes written at the write position, up to the end of the buffer, extend what is live.
  lemma LiveWrite(buf: seq<byte>, r: int, w: int, data: seq<byte>, buf': seq<byte>)
    requires 0 <= r < |buf| && 0 <= w < |buf| && w + |data| <= |buf|
    requires |data| < |buf| - |Live(buf, r, w)|
    requires buf' == buf[..w] + data + buf[w + |data|..]
    ensures Live(buf', r, Wrapped(w + |data|, |buf|)) == Live(buf, r, w) + data
  {
    if r <= w {
      assert buf'[r..w + |data|] == buf[r..w] + data;
    } else {
      assert buf'[r..] == buf[r..];
      assert buf'[..w + |data|] == buf[..w] + data;
    }
  }

  // Dropping the first n live bytes.
  lemma LiveDrop(buf: seq<byte>, r: int, w: int, n: int)
    requires 0 <= r < |buf| && 0 <= w < |buf| && 0 <= n <= |Live(buf, r, w)|
    ensures Live(buf, Wrapped(r + n, |buf|), w) == Live(buf, r, w)[n..]
  {
  }

  // Cutting at `cap` before and after adding `two` is cutting once.
  lemma CutTwice(one: seq<byte>, two: seq<byte>, p: int, cap: nat)
    requires p == Min(|one|, cap)
    ensures var q := Min(p + |two|, cap);
      q == Min(|one + two|, cap) && (one[..p] + two)[..q] == (one + two)[..q]
  {
  }

  class AsyncBuffer {
    var buffer: array<byte>
    var bufferSize: uint32
    var readPos: uint32
    var writePos: uint32

    ghost predicate Valid()
      reads this
    {
      && RingSize(bufferSize as int)
      && buffer.Length == bufferSize as int
      && readPos < bufferSize
      && writePos < bufferSize
    }

    ghost function Contents(): (c: seq<byte>)
      requires Valid()
      reads this, buffer
      ensures |c| < bufferSize as int
    {
      Live(buffer[..], readPos as int, writePos as int)
    }

    ghost function Model(): (r: Ring)
      requires Valid()
      reads this, buffer
      ensures r.Valid() && r.WritePos() == writePos as int
    {
      Ring(bufferSize as int, readPos as int, Contents())
    }

    constructor ()
      ensures Valid() && fresh(buffer)
      ensures Model() == Ring(0x2000, 0, [])
    {
      buffer := new byte[ASYNC_BUFSIZE];
      bufferSize := ASYNC_BUFSIZE;
      readPos := 0;
      writePos := 0;
      new;
      PowerOfTwo18();
    }

    predicate Stretch(off: Option<uint32>, len: uint32)
      requires Valid()
      reads this
    {
      match off
      case None => len == 0
      case Some(o) => o as int + len as int <= bufferSize as int
    }

    function Bytes(off: Option<uint32>, len: uint32): seq<byte>
      requires Valid() && Stretch(off, len)
      reads this, buffer
    {
      match off
      case None => []
      case Some(o) => buffer[o..o as int + len as int]
    }

    /** The queued bytes as at most two stretches; the second follows the first. */
    function BufferPtrs(): (b: Buffers)
      requires Valid()
      reads this, buffer
      ensures Stretch(b.buf1, b.len1) && Stretch(b.buf2, b.len2)
      ensures Contents() == Bytes(b.buf1, b.len1) + Bytes(b.buf2, b.len2)
      ensures b.buf1.None? ==> b.buf2.None? && Contents() == []
    {
      if readPos < writePos then
        Buffers(Some(readPos), writePos - readPos, None, 0)
      else if readPos > writePos then
        Buffers(Some(readPos), bufferSize - readPos, Some(0), writePos)
      else
        Buffers(None, 0, None, 0)
    }

    function BufferLen(): (n: uint32)
      requires Valid()
      reads this, buffer
      ensures n as int == |Contents()|
    {
      if writePos >= readPos then writePos - readPos else bufferSize + writePos - readPos
    }

    /** Append `data`. The bound is what keeps the doubling loop terminating (DoublingEndsIff). */
    method WriteUnlocked(data: seq<byte>)
      requires Valid() && Model().CanWrite(data)
      modifies this, buffer
      ensures Valid() && (buffer == old(buffer) || fresh(buffer))
      ensures Model() == old(Model().Write(data))
    {
      var size := |data| as uint32;
      var remaining := bufferSize - BufferLen();
      if size < remaining {
        WriteInPlace(data);
      } else {
        Grow(data);
      }
    }

    method WriteInPlace(data: seq<byte>)
      requires Valid() && |data| < bufferSize as int - |Contents()|
      modifies this`writePos, buffer
      ensures Valid()
      ensures Model() == old(Model()).(contents := old(Contents()) + data)
    {
      hide Live;
      var rest := data;
      var contiguous := bufferSize - writePos;
      if |data| as uint32 > contiguous {
        FillEnd(data[..contiguous]);
        rest := data[contiguous..];
        assert data == data[..contiguous] + rest;
        assert Contents() + rest == old(Contents()) + data;
      }
      CopyOn(rest);
    }

    // The copy up to the end of the buffer, when the data does not fit there.
    method FillEnd(data: seq<byte>)
      requires Valid() && |data| < bufferSize as int - |Contents()|
      requires writePos as int + |data| == bufferSize as int
      modifies this`writePos, buffer
      ensures Valid() && writePos == 0 && Contents() == old(Contents()) + data
    {
      hide Live;
      CopyToCursor(data);
      writePos := 0;
    }

    // The last copy, and the step to the position behind it.
    method CopyOn(data: seq<byte>)
      requires Valid() && |data| < bufferSize as int - |Contents()|
      requires writePos as int + |data| <= bufferSize as int
      modifies this`writePos, buffer
      ensures Valid() && Contents() == old(Contents()) + data
    {
      hide Live;
      CopyToCursor(data);
      ModWraps(writePos as int + |data|, bufferSize as int);
      writePos := (writePos + |data| as uint32) % bufferSize;
    }

    // One mem_copy to the write position, which does not move yet.
    method CopyToCursor(data: seq<byte>)
      requires Valid() && |data| < bufferSize as int - |Contents()|
      requires writePos as int + |data| <= bufferSize as int
      modifies buffer
      ensures Live(buffer[..], readPos as int, Wrapped(writePos as int + |data|, bufferSize as int))
           == old(Contents()) + data
    {
      MemCopy(buffer, writePos as int, data);
      LiveWrite(old(buffer[..]), readPos as int, writePos as int, data, buffer[..]);
    }

    method Grow(data: seq<byte>)
      requires Valid() && Model().CanWrite(data)
      requires |data| >= bufferSize as int - |Contents()|
      modifies this
      ensures Valid() && fresh(buffer)
      ensures Model() == old(Model().Write(data))
    {
      // one more, so that the ring stays below its capacity
      var nextSize := NextBufferSize(bufferSize, BufferLen() + |data| as uint32 + 1);
      var next := new byte[nextSize];
      var nextLen := CopyStretches(next, nextSize);
      MemCopy(next, nextLen as int, data);
      assert next[..nextLen as int + |data|] == Contents() + data;
      buffer := next;
      bufferSize := nextSize;
      readPos := 0;
      writePos := nextLen + |data| as uint32;
    }

    /** Copy both stretches of the queue to the start of `dst`, stopping at `cap` bytes. */
    method CopyStretches(dst: array<byte>, cap: uint32) returns (len: uint32)
      requires Valid() && dst != buffer && cap as int <= dst.Length
      modifies dst
      ensures len as int == Min(|Contents()|, cap as int)
      ensures dst[..len] == Contents()[..len]
    {
      hide Live;
      len := 0;
      var b := BufferPtrs();
      if b.buf1.Some? {
        ghost var one, two := Bytes(b.buf1, b.len1), Bytes(b.buf2, b.len2);
        len := Append(dst, len, Bytes(b.buf1, b.len1), cap);
        assert dst[..len] == one[..len];
        if b.buf2.Some? {
          CutTwice(one, two, len as int, cap as int);
          len := Append(dst, len, Bytes(b.buf2, b.len2), cap);
        } else {
          assert one + two == one;
        }
      }
    }

    // One clamped mem_copy behind the `len` bytes already in `dst`.
    method Append(dst: array<byte>, len: uint32, src: seq<byte>, cap: uint32) returns (len': uint32)
      requires len <= cap && cap as int <= dst.Length && |src| < 0x1_0000_0000
      modifies dst
      ensures len' as int == Min(len as int + |src|, cap as int)
      ensures dst[..len'] == (old(dst[..len]) + src)[..len']
    {
      var n := |src| as uint32;
      if n > cap - len {
        n := cap - len;
      }
      MemCopy(dst, len as int, src[..n]);
      len' := len + n;
    }

    /** One round of the drain loop: move up to 64 KiB out of the ring into `local`. */
    method TakeChunk(local: array<byte>) returns (len: uint32)
      requires Valid() && local != buffer
      requires local.Length == ASYNC_LOCAL_BUFSIZE as int
      modifies this`readPos, local
      ensures Valid()
      ensures len as int == old(Model().Chunk()) == Min(0x1_0000, old(|Contents()|))
      ensures local[..len] == old(Contents()[..Model().Chunk()])
      ensures Model() == old(Model().Drop())
    {
      len := CopyStretches(local, ASYNC_LOCAL_BUFSIZE);
      LiveDrop(buffer[..], readPos as int, writePos as int, len as int);
      ModWraps(readPos as int + len as int, bufferSize as int);
      readPos := (readPos + len) % bufferSize;
    }
  }
}
