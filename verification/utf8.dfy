/**
 * UTF-8 in src/base/str.cpp: encoding, decoding, checking (section 4 of RFC 3629).
 *
 * A C string is the sequence of bytes before its terminator; reading at its length reads the
 * terminating 0. Bit operations on disjoint bit fields are written as arithmetic.
 */
module Utf8 {
  import opened Base

  predicate CString(s: seq<byte>) {
    forall i :: 0 <= i < |s| ==> s[i] != 0
  }

  function At(s: seq<byte>, i: nat): byte {
    if i < |s| then s[i] else 0
  }

  // ---------------------------------------------------------------- code points

  /** A code point that UTF-8 can encode: not a surrogate, at most 0x10FFFF. */
  predicate Scalar(c: int) {
    0 <= c <= 0x10FFFF && !(0xD800 <= c <= 0xDFFF)
  }

  // A code point that can stand in a C string.
  predicate Char(c: int) {
    Scalar(c) && c != 0
  }

  /** The bytes str_utf8_encode writes. */
  function Encode(c: int): (r: seq<byte>)
    ensures |r| <= 4
  {
    if c <= 0x7F then [c % 0x100]
    else if c <= 0x7FF then [0xC0 + c / 0x40 % 0x20, 0x80 + c % 0x40]
    else if c <= 0xFFFF then [0xE0 + c / 0x1000 % 0x10, 0x80 + c / 0x40 % 0x40, 0x80 + c % 0x40]
    else if c <= 0x10FFFF then
      [0xF0 + c / 0x4_0000 % 8, 0x80 + c / 0x1000 % 0x40, 0x80 + c / 0x40 % 0x40, 0x80 + c % 0x40]
    else []
  }

  method Utf8Encode(ptr: array<byte>, c: int) returns (n: nat)
    requires ptr.Length >= 4
    modifies ptr
    ensures n == |Encode(c)| && ptr[..n] == Encode(c) && ptr[n..] == old(ptr[n..])
  {
    if c <= 0x7F {
      ptr[0] := c % 0x100;
      return 1;
    } else if c <= 0x7FF {
      ptr[0] := 0xC0 + c / 0x40 % 0x20;
      ptr[1] := 0x80 + c % 0x40;
      return 2;
    } else if c <= 0xFFFF {
      ptr[0] := 0xE0 + c / 0x1000 % 0x10;
      ptr[1] := 0x80 + c / 0x40 % 0x40;
      ptr[2] := 0x80 + c % 0x40;
      return 3;
    } else if c <= 0x10FFFF {
      ptr[0] := 0xF0 + c / 0x4_0000 % 8;
      ptr[1] := 0x80 + c / 0x1000 % 0x40;
      ptr[2] := 0x80 + c / 0x40 % 0x40;
      ptr[3] := 0x80 + c % 0x40;
      return 4;
    }
    return 0;
  }

  // ---------------------------------------------------------------- decoding one code point

  // What a lead byte announces: how many bytes follow, the range of the first of them, and the
  // payload of the lead byte.
  datatype Lead = Lead(needed: nat, lo: byte, hi: byte, payload: nat)

  function LeadOf(b: byte): (l: Lead)
    ensures l.needed <= 3
    ensures 0x80 <= l.lo && l.hi <= 0xBF
  {
    if 0xC2 <= b <= 0xDF then Lead(1, 0x80, 0xBF, b - 0xC0)
    else if 0xE0 <= b <= 0xEF then
      Lead(2, if b == 0xE0 then 0xA0 else 0x80, if b == 0xED then 0x9F else 0xBF, b - 0xE0)
    else if 0xF0 <= b <= 0xF4 then
      Lead(3, if b == 0xF0 then 0x90 else 0x80, if b == 0xF4 then 0x8F else 0xBF, b - 0xF0)
    else Lead(0, 0x80, 0xBF, 0)
  }

  datatype Decoded = Decoded(cp: int, next: nat)

  // The bytes after the lead byte: `needed` more, the first within lo..hi.
  function Tail(s: seq<byte>, i: nat, needed: nat, lo: byte, hi: byte, acc: nat): (d: Decoded)
    requires 0x80 <= lo
    decreases needed
  {
    if needed == 0 then Decoded(acc, i)
    else if lo <= At(s, i) <= hi then
      Tail(s, i + 1, needed - 1, 0x80, 0xBF, acc * 0x40 + (At(s, i) - 0x80))
    else Decoded(-1, i)
  }

  /** The code point at `i` and the position after it; -1 for a malformed one. */
  function Decode(s: seq<byte>, i: nat): (d: Decoded) {
    var b := At(s, i);
    var l := LeadOf(b);
    if b <= 0x7F then Decoded(b, i + 1)
    else if l.needed == 0 then Decoded(-1, i + 1)
    else Tail(s, i + 1, l.needed, l.lo, l.hi, l.payload)
  }

  // x << 6 * n
  function Shift(x: nat, n: nat): nat
    decreases n
  {
    if n == 0 then x else Shift(x * 0x40, n - 1)
  }

  lemma {:induction false} ShiftAdd(x: nat, y: nat, n: nat)
    ensures Shift(x, n) + Shift(y, n) == Shift(x + y, n)
    decreases n
  {
    if n > 0 {
      ShiftAdd(x * 0x40, y * 0x40, n - 1);
    }
  }

  lemma ShiftNext(acc: nat, y: nat, n: nat)
    ensures Shift(acc, n + 1) + Shift(y, n) == Shift(acc * 0x40 + y, n)
  {
    ShiftAdd(acc * 0x40, y, n);
  }

  lemma DecodeStarts(s: seq<byte>, i: nat)
    requires At(s, i) > 0x7F
    ensures var l := LeadOf(At(s, i));
      if l.needed == 0 then Decode(s, i) == Decoded(-1, i + 1)
      else Decode(s, i) == Tail(s, i + 1, l.needed, l.lo, l.hi, l.payload)
  {
  }

  lemma DecodeAscii(s: seq<byte>, i: nat)
    requires At(s, i) <= 0x7F
    ensures Decode(s, i) == Decoded(At(s, i), i + 1)
  {
  }

  lemma TailNext(s: seq<byte>, i: nat, needed: nat, lo: byte, hi: byte, acc: nat)
    requires 0x80 <= lo && needed > 0
    ensures !(lo <= At(s, i) <= hi) ==> Tail(s, i, needed, lo, hi, acc) == Decoded(-1, i)
    ensures lo <= At(s, i) <= hi ==>
      Tail(s, i, needed, lo, hi, acc) == Tail(s, i + 1, needed - 1, 0x80, 0xBF, acc * 0x40 + (At(s, i) - 0x80))
  {
  }

  lemma TailEnds(s: seq<byte>, i: nat, lo: byte, hi: byte, acc: nat)
    requires 0x80 <= lo
    ensures Tail(s, i, 0, lo, hi, acc) == Decoded(acc, i)
  {
  }

  lemma NoShift(x: nat)
    ensures Shift(x, 0) == x
  {
  }

  // Within a sequence: `left` more bytes are needed, and `acc` is the payload read so far.
  predicate Midway(s: seq<byte>, ptr: nat, next: nat, left: int, lower: byte, upper: byte, codePoint: nat, acc: nat) {
    && 0 < left <= 3 && ptr <= next <= |s| && 0x80 <= lower
    && codePoint == Shift(acc, left) && Decode(s, ptr) == Tail(s, next, left, lower, upper, acc)
  }

  lemma MidwayStarts(s: seq<byte>, ptr: nat)
    requires ptr < |s| && At(s, ptr) > 0x7F
    ensures var l := LeadOf(At(s, ptr));
      if l.needed == 0 then Decode(s, ptr) == Decoded(-1, ptr + 1)
      else Midway(s, ptr, ptr + 1, l.needed, l.lo, l.hi, Shift(l.payload, l.needed), l.payload)
  {
    DecodeStarts(s, ptr);
    hide Decode, Tail, Shift;
  }

  lemma MidwayNext(s: seq<byte>, ptr: nat, next: nat, left: int, lower: byte, upper: byte, codePoint: nat, acc: nat)
    requires Midway(s, ptr, next, left, lower, upper, codePoint, acc)
    ensures !(lower <= At(s, next) <= upper) ==> Decode(s, ptr) == Decoded(-1, next)
    ensures lower <= At(s, next) <= upper ==>
      var digit := At(s, next) - 0x80;
      var more := codePoint + Shift(digit, left - 1);
      next < |s| && if left == 1 then Decode(s, ptr) == Decoded(more, next + 1)
      else Midway(s, ptr, next + 1, left - 1, 0x80, 0xBF, more, acc * 0x40 + digit)
  {
    hide Decode, Tail, Shift;
    TailNext(s, next, left, lower, upper, acc);
    if lower <= At(s, next) <= upper {
      var digit := At(s, next) - 0x80;
      ShiftNext(acc, digit, left - 1);
      NoShift(acc * 0x40 + digit);
      TailEnds(s, next + 1, 0x80, 0xBF, acc * 0x40 + digit);
    }
  }

  /** The decoder's state loop, one byte at a time. */
  method Utf8Decode(s: seq<byte>, ptr: nat) returns (cp: int, next: nat)
    requires CString(s) && ptr <= |s|
    ensures Decoded(cp, next) == Decode(s, ptr)
  {
    var lower: byte, upper: byte := 0x80, 0xBF;
    var codePoint: nat, seen, needed := 0, 0, 0;
    ghost var acc: nat := 0;
    next := ptr;
    while true
      invariant 0 <= seen && (needed == 0 || seen < needed) && 0x80 <= lower
      invariant if needed == 0 then seen == 0 && next == ptr && lower == 0x80 && upper == 0xBF else
        Midway(s, ptr, next, needed - seen, lower, upper, codePoint, acc)
      decreases needed == 0, needed - seen
    {
      hide Decode, Shift, LeadOf, Midway;
      var b := At(s, next);
      next := next + 1;
      if needed == 0 {
        if b <= 0x7F {
          DecodeAscii(s, ptr);
          return b, next;
        }
        MidwayStarts(s, ptr);
        needed, lower, upper, codePoint := LeadByte(b);
        if needed == 0 {
          return -1, next;
        }
        acc := codePoint;
        codePoint := Shift(codePoint, needed);
        continue;
      }
      MidwayNext(s, ptr, next - 1, needed - seen, lower, upper, codePoint, acc);
      if !(lower <= b <= upper) {
        return -1, next - 1;
      }
      acc := acc * 0x40 + (b - 0x80);
      lower, upper := 0x80, 0xBF;
      seen := seen + 1;
      codePoint := codePoint + Shift(b - 0x80, needed - seen);
      if seen == needed {
        return codePoint, next;
      }
    }
  }

  // The cases of the decoder loop for a byte above 0x7F that starts a sequence.
  method LeadByte(b: byte) returns (needed: nat, lower: byte, upper: byte, codePoint: nat)
    ensures LeadOf(b) == Lead(needed, lower, upper, codePoint)
  {
    needed, lower, upper, codePoint := 0, 0x80, 0xBF, 0;
    if 0xC2 <= b <= 0xDF {
      needed := 1;
      codePoint := b - 0xC0;
    } else if 0xE0 <= b <= 0xEF {
      if b == 0xE0 {
        lower := 0xA0;
      }
      if b == 0xED {
        upper := 0x9F;
      }
      needed := 2;
      codePoint := b - 0xE0;
    } else if 0xF0 <= b <= 0xF4 {
      if b == 0xF0 {
        lower := 0x90;
      }
      if b == 0xF4 {
        upper := 0x8F;
      }
      needed := 3;
      codePoint := b - 0xF0;
    }
  }

  // ---------------------------------------------------------------- decoding undoes encoding

  predicate Follow(b: byte) {
    0x80 <= b <= 0xBF
  }

  /** Every decoding consumes a byte, and only reading the terminator moves past it. */
  lemma DecodeProgress(s: seq<byte>, i: nat)
    requires CString(s) && i <= |s|
    ensures var d := Decode(s, i);
      && i < d.next <= |s| + 1 && (d.next == |s| + 1 <==> i == |s|)
      && (d.cp == 0 <==> i == |s|)
      && (d.cp == -1 ==> d.next <= i + 3)
  {
    if i < |s| {
      var l := LeadOf(s[i]);
      if s[i] > 0x7F && l.needed > 0 {
        TailShape(s, i + 1, l.needed, l.lo, l.hi, l.payload);
      }
    }
  }

  lemma {:induction false} TailShape(s: seq<byte>, i: nat, needed: nat, lo: byte, hi: byte, acc: nat)
    requires i <= |s| && 0x80 <= lo
    ensures var d := Tail(s, i, needed, lo, hi, acc);
      && i <= d.next <= |s| && d.next <= i + needed
      && (d.cp == -1 ==> needed > 0 && d.next < i + needed)
      && (d.cp != -1 ==> d.next == i + needed && d.cp >= acc)
    decreases needed
  {
    if needed > 0 && lo <= At(s, i) <= hi {
      TailShape(s, i + 1, needed - 1, 0x80, 0xBF, acc * 0x40 + (At(s, i) - 0x80));
    }
  }

  // A lead byte followed by as many continuation bytes as it announces.
  predicate OneLeadByte(bytes: seq<byte>) {
    && bytes != [] && |bytes| == LeadOf(bytes[0]).needed + 1
    && forall i :: 0 < i < |bytes| ==> Follow(bytes[i])
  }

  lemma EncodeShape(c: int)
    requires Scalar(c) && c > 0x7F
    ensures var e := Encode(c); var l := LeadOf(e[0]);
      && OneLeadByte(e) && e[0] > 0x7F && l.needed > 0 && l.lo <= e[1] <= l.hi
  {
    if c <= 0x7FF {
      Digits(c / 0x40);
    } else if c <= 0xFFFF {
      EncodeShape3(c);
    } else {
      EncodeShape4(c);
    }
  }

  lemma EncodeShape3(c: int)
    requires Scalar(c) && 0x7FF < c <= 0xFFFF
    ensures var e := Encode(c); var l := LeadOf(e[0]);
      && OneLeadByte(e) && e[0] > 0x7F && l.needed > 0 && l.lo <= e[1] <= l.hi
  {
    Digits(c);
    Digits(c / 0x40);
    assert c / 0x1000 == c / 0x40 / 0x40;
  }

  lemma EncodeShape4(c: int)
    requires Scalar(c) && 0xFFFF < c
    ensures var e := Encode(c); var l := LeadOf(e[0]);
      && OneLeadByte(e) && e[0] > 0x7F && l.needed > 0 && l.lo <= e[1] <= l.hi
  {
    Digits(c / 0x1000);
    HigherDigits(c);
  }

  // One base-64 digit split off.
  lemma Digits(x: nat)
    ensures x == x / 0x40 * 0x40 + x % 0x40 && 0 <= x % 0x40 < 0x40
  {
  }

  // A digit put behind others, and split off again.
  lemma Unpack(q: nat, r: nat)
    requires r < 0x40
    ensures (q * 0x40 + r) / 0x40 == q && (q * 0x40 + r) % 0x40 == r
  {
  }

  lemma HigherDigits(c: nat)
    ensures c / 0x1000 == c / 0x40 / 0x40 && c / 0x4_0000 == c / 0x1000 / 0x40
  {
  }

  lemma {:induction false} TailReads(s: seq<byte>, i: nat, needed: nat, lo: byte, hi: byte, acc: nat, want: nat)
    requires 0x80 <= lo && i + needed <= |s|
    requires forall k :: i <= k < i + needed ==> Follow(s[k])
    requires needed > 0 ==> lo <= s[i] <= hi
    requires want == Payload(s[i..i + needed], acc)
    ensures Tail(s, i, needed, lo, hi, acc) == Decoded(want, i + needed)
    decreases needed
  {
    if needed > 0 {
      assert s[i..i + needed][1..] == s[i + 1..i + needed];
      TailReads(s, i + 1, needed - 1, 0x80, 0xBF, acc * 0x40 + (s[i] - 0x80), want);
    }
  }

  // The value of continuation bytes after the payload `acc` of the lead byte.
  function Payload(bytes: seq<byte>, acc: int): int
    decreases |bytes|
  {
    if bytes == [] then acc else Payload(bytes[1..], acc * 0x40 + (bytes[0] as int - 0x80))
  }

  lemma EncodePayload(c: int)
    requires Scalar(c) && c > 0x7F
    ensures Payload(Encode(c)[1..], LeadOf(Encode(c)[0]).payload) == c
  {
    if c <= 0x7FF {
      var e := Encode(c);
      Digits(c);
      Payload1(e[1], e[0] - 0xC0);
      assert e[1..] == [e[1]];
    } else if c <= 0xFFFF {
      EncodePayload3(c);
    } else {
      EncodePayload4(c);
    }
  }

  lemma EncodePayload3(c: int)
    requires 0x7FF < c <= 0xFFFF && Scalar(c)
    ensures Payload(Encode(c)[1..], LeadOf(Encode(c)[0]).payload) == c
  {
    var e := Encode(c);
    Digits(c);
    Digits(c / 0x40);
    HigherDigits(c);
    Payload2(e[1], e[2], e[0] - 0xE0);
    assert e[1..] == [e[1], e[2]];
    hide Payload;
  }

  lemma EncodePayload4(c: int)
    requires 0xFFFF < c && Scalar(c)
    ensures Payload(Encode(c)[1..], LeadOf(Encode(c)[0]).payload) == c
  {
    hide Payload, Encode, LeadOf;
    Encode4Is(c);
    var e := Encode(c);
    Digits(c);
    Digits(c / 0x40);
    Digits(c / 0x1000);
    HigherDigits(c);
    Payload3(e[1], e[2], e[3], e[0] - 0xF0);
    assert e[1..] == [e[1], e[2], e[3]];
  }

  lemma Encode4Is(c: int)
    requires 0xFFFF < c && Scalar(c)
    ensures Encode(c) == [0xF0 + c / 0x4_0000, 0x80 + c / 0x1000 % 0x40, 0x80 + c / 0x40 % 0x40, 0x80 + c % 0x40]
    ensures LeadOf(Encode(c)[0]).payload == Encode(c)[0] - 0xF0
  {
  }

  lemma Payload1(x: byte, acc: int)
    ensures Payload([x], acc) == acc * 0x40 + (x as int - 0x80)
  {
    assert [x][1..] == [];
  }

  lemma Payload2(x: byte, y: byte, acc: int)
    ensures Payload([x, y], acc) == (acc * 0x40 + (x as int - 0x80)) * 0x40 + (y as int - 0x80)
  {
    assert [x, y][1..] == [y];
    Payload1(y, acc * 0x40 + (x as int - 0x80));
  }

  lemma Payload3(x: byte, y: byte, z: byte, acc: int)
    ensures Payload([x, y, z], acc)
         == ((acc * 0x40 + (x as int - 0x80)) * 0x40 + (y as int - 0x80)) * 0x40 + (z as int - 0x80)
  {
    assert [x, y, z][1..] == [y, z];
    Payload2(y, z, acc * 0x40 + (x as int - 0x80));
  }

  /** Decoding at an encoded scalar value gives it back and moves past exactly its bytes. */
  lemma DecodeEncode(s: seq<byte>, i: nat, c: int)
    requires Char(c) && i <= |s| && Encode(c) <= s[i..]
    ensures Decode(s, i) == Decoded(c, i + |Encode(c)|)
  {
    var e := Encode(c);
    assert s[i] == e[0];
    if c > 0x7F {
      EncodeShape(c);
      EncodePayload(c);
      var l := LeadOf(e[0]);
      assert s[i + 1..i + 1 + l.needed] == e[1..];
      assert s[i + 1] == e[1];
      forall k | i + 1 <= k < i + 1 + l.needed ensures Follow(s[k]) {
        assert s[k] == e[k - i];
      }
      TailReads(s, i + 1, l.needed, l.lo, l.hi, l.payload, c);
    }
  }

  // ---------------------------------------------------------------- encoding undoes decoding

  lemma {:induction false} TailSound(s: seq<byte>, i: nat, needed: nat, lo: byte, hi: byte, acc: nat)
    requires CString(s) && i <= |s| && 0x80 <= lo && hi <= 0xBF
    requires Tail(s, i, needed, lo, hi, acc).cp != -1
    ensures i + needed <= |s|
    ensures Tail(s, i, needed, lo, hi, acc) == Decoded(Payload(s[i..i + needed], acc), i + needed)
    ensures forall k :: i <= k < i + needed ==> Follow(s[k])
    ensures needed > 0 ==> lo <= s[i] <= hi
    decreases needed
  {
    if needed > 0 {
      TailSound(s, i + 1, needed - 1, 0x80, 0xBF, acc * 0x40 + (s[i] - 0x80));
      assert s[i..i + needed][1..] == s[i + 1..i + needed];
    }
  }

  lemma Encode2(p: int, x: byte)
    requires 2 <= p <= 0x1F && Follow(x)
    ensures Char(Payload([x], p)) && Encode(Payload([x], p)) == [0xC0 + p, x]
  {
    Payload1(x, p);
  }

  lemma Encode3(p: int, x: byte, y: byte)
    requires 0 <= p <= 0xF && Follow(x) && Follow(y)
    requires (p == 0 ==> x >= 0xA0) && (p == 0xD ==> x <= 0x9F)
    ensures Char(Payload([x, y], p)) && Encode(Payload([x, y], p)) == [0xE0 + p, x, y]
  {
    Payload2(x, y, p);
    hide Payload;
    var c := Payload([x, y], p);
    var q := p * 0x40 + (x as int - 0x80);
    Unpack(p, x as int - 0x80);
    Unpack(q, y as int - 0x80);
    HigherDigits(c);
  }

  lemma Encode4(p: int, x: byte, y: byte, z: byte)
    requires 0 <= p <= 4 && Follow(x) && Follow(y) && Follow(z)
    requires (p == 0 ==> x >= 0x90) && (p == 4 ==> x <= 0x8F)
    ensures Char(Payload([x, y, z], p)) && Encode(Payload([x, y, z], p)) == [0xF0 + p, x, y, z]
  {
    Payload3(x, y, z, p);
    hide Payload;
    var c := Payload([x, y, z], p);
    var q := p * 0x40 + (x as int - 0x80);
    var r := q * 0x40 + (y as int - 0x80);
    Unpack(p, x as int - 0x80);
    Unpack(q, y as int - 0x80);
    Unpack(r, z as int - 0x80);
    HigherDigits(c);
    FourBytes(c, p, x, y, z);
  }

  // The last case of the encoding, from the digits of the code point.
  lemma FourBytes(c: int, p: int, x: byte, y: byte, z: byte)
    requires 0xFFFF < c <= 0x10FFFF && Follow(x) && Follow(y) && Follow(z) && 0 <= p <= 4
    requires c / 0x4_0000 == p && c / 0x1000 % 0x40 == x - 0x80
    requires c / 0x40 % 0x40 == y - 0x80 && c % 0x40 == z - 0x80
    ensures Encode(c) == [0xF0 + p, x, y, z]
  {
  }

  // The bytes behind a lead byte encode the code point with it.
  lemma LeadSound(b: byte, rest: seq<byte>)
    requires b > 0x7F && |rest| == LeadOf(b).needed > 0 && LeadOf(b).lo <= rest[0] <= LeadOf(b).hi
    requires forall k :: 0 <= k < |rest| ==> Follow(rest[k])
    ensures var c := Payload(rest, LeadOf(b).payload); Char(c) && Encode(c) == [b] + rest
  {
    hide Payload, Encode;
    var p := LeadOf(b).payload;
    if |rest| == 1 {
      assert rest == [rest[0]];
      Encode2(p, rest[0]);
    } else if |rest| == 2 {
      assert rest == [rest[0], rest[1]];
      Encode3(p, rest[0], rest[1]);
    } else {
      assert rest == [rest[0], rest[1], rest[2]];
      Encode4(p, rest[0], rest[1], rest[2]);
    }
  }

  /** Whatever is decoded, other than an error, is exactly what the bytes read encode. */
  lemma DecodeSound(s: seq<byte>, i: nat)
    requires CString(s) && i < |s| && Decode(s, i).cp != -1
    ensures var d := Decode(s, i);
      Char(d.cp) && d.next <= |s| && s[i..d.next] == Encode(d.cp)
  {
    if s[i] > 0x7F {
      hide LeadOf, Tail, Payload, Encode, Decode;
      var l := LeadOf(s[i]);
      DecodeStarts(s, i);
      TailSound(s, i + 1, l.needed, l.lo, l.hi, l.payload);
      var rest := s[i + 1..i + 1 + l.needed];
      assert s[i..i + 1 + l.needed] == [s[i]] + rest;
      LeadSound(s[i], rest);
    }
  }

  /** -1 exactly where no encoded code point starts. */
  lemma DecodeFailsIff(s: seq<byte>, i: nat)
    requires CString(s) && i < |s|
    ensures Decode(s, i).cp == -1 <==> forall c :: Char(c) ==> !(Encode(c) <= s[i..])
  {
    if Decode(s, i).cp == -1 {
      forall c | Char(c) && Encode(c) <= s[i..] ensures false {
        DecodeEncode(s, i, c);
      }
    } else {
      DecodeSound(s, i);
      var d := Decode(s, i);
      assert s[i..][..d.next - i] == s[i..d.next];
    }
  }

  // ---------------------------------------------------------------- whole strings

  predicate Chars(cps: seq<int>) {
    forall k :: 0 <= k < |cps| ==> Char(cps[k])
  }

  function EncodeAll(cps: seq<int>): (s: seq<byte>)
    decreases |cps|
  {
    if cps == [] then [] else Encode(cps[0]) + EncodeAll(cps[1..])
  }

  /** A string that is a concatenation of encoded code points. */
  ghost predicate ValidUtf8(s: seq<byte>) {
    exists cps :: Chars(cps) && EncodeAll(cps) == s
  }

  lemma EncodeNonZero(c: int)
    requires Char(c)
    ensures Encode(c) != [] && CString(Encode(c))
  {
    if c > 0x7F {
      EncodeShape(c);
    }
  }

  lemma {:induction false} EncodeAllNonZero(cps: seq<int>)
    requires Chars(cps)
    ensures CString(EncodeAll(cps))
    decreases |cps|
  {
    if cps != [] {
      EncodeNonZero(cps[0]);
      EncodeAllNonZero(cps[1..]);
    }
  }

  /** What str_utf8_check computes from position `i` on. */
  function CheckFrom(s: seq<byte>, i: nat): bool
    requires CString(s) && i <= |s|
    decreases |s| - i
  {
    DecodeProgress(s, i);
    var d := Decode(s, i);
    if d.cp == 0 then true else if d.cp == -1 then false else CheckFrom(s, d.next)
  }

  method Utf8Check(s: seq<byte>) returns (ok: bool)
    requires CString(s)
    ensures ok <==> ValidUtf8(s)
  {
    CheckIffValid(s);
    var ptr := 0;
    while true
      invariant ptr <= |s| && CheckFrom(s, 0) == CheckFrom(s, ptr)
      decreases |s| - ptr
    {
      DecodeProgress(s, ptr);
      var cp, next := Utf8Decode(s, ptr);
      if cp == 0 {
        return true;
      }
      if cp == -1 {
        return false;
      }
      ptr := next;
    }
  }

  // What is left of an encoded sequence behind its first code point.
  lemma EncodeAllTail(s: seq<byte>, i: nat, cps: seq<int>)
    requires i <= |s| && Chars(cps) && cps != [] && s[i..] == EncodeAll(cps)
    ensures var n := |Encode(cps[0])|;
      i + n <= |s| && Encode(cps[0]) <= s[i..] && s[i + n..] == EncodeAll(cps[1..])
  {
    hide Encode;
    var n := |Encode(cps[0])|;
    assert s[i + n..] == s[i..][n..];
  }

  lemma {:induction false} CheckAccepts(s: seq<byte>, i: nat, cps: seq<int>)
    requires CString(s) && i <= |s| && Chars(cps) && s[i..] == EncodeAll(cps)
    ensures CheckFrom(s, i)
    decreases |cps|
  {
    if cps != [] {
      hide Decode, Encode, EncodeAll;
      EncodeNonZero(cps[0]);
      EncodeAllTail(s, i, cps);
      DecodeEncode(s, i, cps[0]);
      CheckAccepts(s, i + |Encode(cps[0])|, cps[1..]);
      CheckBack(s, i);
    }
    hide CheckFrom;
  }

  lemma CheckBack(s: seq<byte>, i: nat)
    requires CString(s) && i <= |s| && Decode(s, i).cp > 0 && Decode(s, i).next <= |s|
    ensures CheckFrom(s, i) == CheckFrom(s, Decode(s, i).next)
  {
    hide Decode;
  }

  lemma {:induction false} CheckSound(s: seq<byte>, i: nat) returns (cps: seq<int>)
    requires CString(s) && i <= |s| && CheckFrom(s, i)
    ensures Chars(cps) && s[i..] == EncodeAll(cps)
    decreases |s| - i
  {
    DecodeProgress(s, i);
    if i == |s| {
      cps := [];
    } else {
      hide Decode, Encode;
      var d := Decode(s, i);
      DecodeSound(s, i);
      var rest := CheckSound(s, d.next);
      hide CheckFrom;
      cps := [d.cp] + rest;
      assert cps[1..] == rest;
      assert s[i..] == s[i..d.next] + s[d.next..];
    }
  }

  lemma CheckIffValid(s: seq<byte>)
    requires CString(s)
    ensures CheckFrom(s, 0) <==> ValidUtf8(s)
  {
    assert s[0..] == s;
    if CheckFrom(s, 0) {
      var cps := CheckSound(s, 0);
    } else if ValidUtf8(s) {
      var cps :| Chars(cps) && EncodeAll(cps) == s;
      CheckAccepts(s, 0, cps);
    }
  }

  /** A valid string is made of only one sequence of code points. */
  lemma {:induction false} EncodeAllInjective(xs: seq<int>, ys: seq<int>)
    requires Chars(xs) && Chars(ys) && EncodeAll(xs) == EncodeAll(ys)
    ensures xs == ys
    decreases |xs|
  {
    if xs == [] || ys == [] {
      if xs != [] {
        EncodeNonZero(xs[0]);
      }
      if ys != [] {
        EncodeNonZero(ys[0]);
      }
    } else {
      var s := EncodeAll(xs);
      assert s[0..] == s;
      DecodeEncode(s, 0, xs[0]);
      DecodeEncode(s, 0, ys[0]);
      assert EncodeAll(xs[1..]) == s[|Encode(xs[0])|..] == EncodeAll(ys[1..]);
      EncodeAllInjective(xs[1..], ys[1..]);
      assert xs == [xs[0]] + xs[1..] && ys == [ys[0]] + ys[1..];
    }
  }
}
