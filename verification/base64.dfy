/** str_base64 and str_base64_decode of src/base/str.cpp (sections 3.5 and 4 of RFC 4648). */
module Base64 {
  import opened Base

  // ---------------------------------------------------------------- the alphabet

  function DigitValue(c: char): (v: int)
    ensures -1 <= v < 64
  {
    if 'A' <= c <= 'Z' then c as int - 'A' as int
    else if 'a' <= c <= 'z' then c as int - 'a' as int + 26
    else if '0' <= c <= '9' then c as int - '0' as int + 52
    else if c == '+' then 62
    else if c == '/' then 63
    else -1
  }

  // The entry of the table DIGITS: A-Z, a-z, 0-9, + and /.
  function Digit(v: int): (c: char)
    requires 0 <= v < 64
    ensures DigitValue(c) == v
  {
    if v < 26 then ('A' as int + v) as char
    else if v < 52 then ('a' as int + v - 26) as char
    else if v < 62 then ('0' as int + v - 52) as char
    else if v == 62 then '+'
    else '/'
  }

  lemma DigitOfValue(c: char)
    requires DigitValue(c) != -1
    ensures Digit(DigitValue(c)) == c
  {
  }

  // ---------------------------------------------------------------- what is encoded to what

  /** Section 4: groups of 24 bits, the last one padded. */
  function Encode(data: seq<byte>): (s: string)
    decreases |data|
  {
    if data == [] then ""
    else if |data| == 1 then [Digit(data[0] / 4), Digit(data[0] % 4 * 16), '=', '=']
    else if |data| == 2 then
      [Digit(data[0] / 4), Digit(data[0] % 4 * 16 + data[1] / 16), Digit(data[1] % 16 * 4), '=']
    else EncodeGroup(data[0], data[1], data[2]) + Encode(data[3..])
  }

  function EncodeGroup(x: byte, y: byte, z: byte): (s: string)
    ensures |s| == 4
  {
    [Digit(x / 4), Digit(x % 4 * 16 + y / 16), Digit(y % 16 * 4 + z / 64), Digit(z % 64)]
  }

  // ---------------------------------------------------------------- position by position

  // The character at position p of group g.
  function CharAt(data: seq<byte>, g: nat, p: nat): char
    requires 3 * g < |data| && p < 4
  {
    var at, n := 3 * g, |data|;
    var y := if at + 1 < n then data[at + 1] else 0;
    var z := if at + 2 < n then data[at + 2] else 0;
    if p == 0 then Digit(data[at] / 4)
    else if p == 1 then Digit(data[at] % 4 * 16 + y / 16)
    else if p == 2 then (if at + 1 < n then Digit(y % 16 * 4 + z / 64) else '=')
    else (if at + 2 < n then Digit(z % 64) else '=')
  }

  lemma {:induction false} EncodeAt(data: seq<byte>, g: nat, p: nat)
    requires 3 * g < |data| && p < 4
    ensures 4 * g + p < |Encode(data)| && Encode(data)[4 * g + p] == CharAt(data, g, p)
    decreases g
  {
    hide Encode, CharAt;
    if g == 0 {
      EncodeFirst(data, p);
    } else {
      EncodeAt(data[3..], g - 1, p);
      CharAtLater(data, g, p);
      EncodeRest(data, 4 * (g - 1) + p);
    }
  }

  lemma EncodeFirst(data: seq<byte>, p: nat)
    requires data != [] && p < 4
    ensures p < |Encode(data)| && Encode(data)[p] == CharAt(data, 0, p)
  {
    hide Digit;
  }

  lemma EncodeRest(data: seq<byte>, k: nat)
    requires |data| > 3 && k < |Encode(data[3..])|
    ensures k + 4 < |Encode(data)| && Encode(data)[k + 4] == Encode(data[3..])[k]
  {
    hide Digit;
  }

  lemma CharAtLater(data: seq<byte>, g: nat, p: nat)
    requires 0 < g && 3 * g < |data| && p < 4
    ensures CharAt(data[3..], g - 1, p) == CharAt(data, g, p)
  {
    hide Digit;
  }

  // g groups are all there is.
  lemma {:induction false} EncodeLength(data: seq<byte>, g: nat)
    requires 3 * g - 3 < |data| <= 3 * g
    ensures |Encode(data)| == 4 * g
    decreases g
  {
    if |data| >= 3 {
      EncodeLength(data[3..], g - 1);
    }
  }

  // ---------------------------------------------------------------- the encoder

  // x << 8 | d, on 32 bits
  function Push(value: nat, d: byte): nat {
    (value * 0x100 + d) % 0x1_0000_0000
  }

  // The last byte pushed is the lowest one, and what is shifted out of it and the one before.
  lemma PushLow(value: nat, d: byte)
    ensures Push(value, d) % 0x100 == d
  {
    var q := (value * 0x100 + d) / 0x1_0000_0000;
    assert Push(value, d) == 0x100 * (value - 0x100_0000 * q) + d;
  }

  lemma Push8(value: nat, d: byte)
    ensures Push(value, d) / 4 % 64 == d / 4
  {
    var q := (value * 0x100 + d) / 0x1_0000_0000;
    assert Push(value, d) / 4 == 64 * (value - 0x100_0000 * q) + d / 4;
  }

  lemma Mod64(x: int, q: int, r: int)
    requires x == 64 * q + r && 0 <= r < 64
    ensures x % 64 == r
  {
  }

  lemma Push10(value: nat, prev: byte, d: byte)
    requires value % 0x100 == prev
    ensures Push(value, d) / 16 % 64 == prev % 4 * 16 + d / 16
  {
    var q, h := (value * 0x100 + d) / 0x1_0000_0000, value / 0x100;
    var k, r := prev / 4, prev % 4;
    assert value == 0x100 * h + 4 * k + r;
    assert Push(value, d) / 16 == 16 * (value - 0x100_0000 * q) + d / 16;
    Mod64(Push(value, d) / 16, 64 * h + k - 0x40_0000 * q, 16 * r + d / 16);
  }

  lemma Push12(value: nat, prev: byte, d: byte)
    requires value % 0x100 == prev
    ensures Push(value, d) / 64 % 64 == prev % 16 * 4 + d / 64
  {
    var q, h := (value * 0x100 + d) / 0x1_0000_0000, value / 0x100;
    var k, r := prev / 16, prev % 16;
    assert value == 0x100 * h + 16 * k + r;
    assert Push(value, d) / 64 == 4 * (value - 0x100_0000 * q) + d / 64;
    Mod64(Push(value, d) / 64, 16 * h + k - 0x10_0000 * q, 4 * r + d / 64);
  }

  lemma Last2(value: nat, prev: byte)
    requires value % 0x100 == prev
    ensures value * 16 % 64 == prev % 4 * 16
  {
    var k, r := prev / 4, prev % 4;
    assert value == 0x100 * (value / 0x100) + 4 * k + r;
    Mod64(value * 16, 64 * (value / 0x100) + k, 16 * r);
  }

  lemma Last4(value: nat, prev: byte)
    requires value % 0x100 == prev
    ensures value * 4 % 64 == prev % 16 * 4
  {
    var k, r := prev / 16, prev % 16;
    assert value == 0x100 * (value / 0x100) + 16 * k + r;
    Mod64(value * 4, 16 * (value / 0x100) + k, 4 * r);
  }

  lemma Last6(value: nat, prev: byte)
    requires value % 0x100 == prev
    ensures value % 64 == prev % 64
  {
    var k, r := prev / 64, prev % 64;
    assert value == 0x100 * (value / 0x100) + 64 * k + r;
    Mod64(value, 4 * (value / 0x100) + k, r);
  }

  // (value >> (bits - 6)) & 0x3f, or (value << (6 - bits)) & 0x3f for fewer than six bits.
  function Padded(value: nat, bits: int): (v: int)
    ensures 0 <= v < 64
  {
    if bits == 2 then value * 16 % 64
    else if bits == 4 then value * 4 % 64
    else if bits == 6 then value % 64
    else if bits == 8 then value / 4 % 64
    else if bits == 10 then value / 16 % 64
    else value / 64 % 64
  }

  // The bits that are not written yet are in the last byte read.
  predicate Pending(data: seq<byte>, i: nat, value: nat) {
    0 < i <= |data| && value % 0x100 == data[i - 1]
  }

  // What the encoder knows before position p of group g, where there are digits still to write.
  predicate Writing(data: seq<byte>, g: nat, p: nat, i: nat, bits: int, value: nat) {
    && p < 4 && 3 * g < |data| && i == 3 * g + p <= |data|
    && bits == 2 * p && (p > 0 ==> Pending(data, i, value))
  }

  // The same after the digit there.
  predicate Wrote(data: seq<byte>, g: nat, p: nat, i: nat, bits: int, value: nat) {
    if p < 3 && 3 * g + p + 1 <= |data| then Writing(data, g, p + 1, i, bits, value)
    else bits <= 0 && i <= |data| && i == (if p == 3 then 3 * g + 3 else |data|)
  }

  // The same with enough bits read for the digit.
  predicate Loaded(data: seq<byte>, g: nat, p: nat, i: nat, bits: int, value: nat) {
    && 3 * g < |data| && p < 4 && bits > 0 && (p == 3 ==> bits == 6)
    && Digit(Padded(value, bits)) == CharAt(data, g, p)
    && Wrote(data, g, p, i, bits - 6, value)
  }

  // Read a byte if fewer than six bits are left.
  method Load(data: seq<byte>, ghost g: nat, ghost p: nat, i0: nat, bits0: int, value0: nat)
    returns (i: nat, bits: int, value: nat)
    requires At(data, g, p, i0, bits0, value0)
    ensures if Writing(data, g, p, i0, bits0, value0) then Loaded(data, g, p, i, bits, value)
            else i == i0 && bits == bits0 && value == value0
  {
    hide Push, Digit, Padded, CharAt;
    i, bits, value := i0, bits0, value0;
    if bits < 6 && i < |data| {
      PushLow(value, data[i]);
      DigitRead(data, g, p, value);
      value := Push(value, data[i]);
      bits := bits + 8;
      i := i + 1;
    } else if bits > 0 {
      DigitKept(data, g, p, value);
    }
  }

  lemma DigitRead(data: seq<byte>, g: nat, p: nat, value: nat)
    requires p < 3 && 3 * g + p < |data| && (p > 0 ==> Pending(data, 3 * g + p, value))
    ensures Digit(Padded(Push(value, data[3 * g + p]), 2 * p + 8)) == CharAt(data, g, p)
  {
    hide Push, Digit;
    var d := data[3 * g + p];
    if p == 0 {
      Push8(value, d);
    } else if p == 1 {
      Push10(value, data[3 * g], d);
    } else {
      Push12(value, data[3 * g + 1], d);
    }
  }

  lemma DigitKept(data: seq<byte>, g: nat, p: nat, value: nat)
    requires 0 < p < 4 && Pending(data, 3 * g + p, value) && (p < 3 ==> 3 * g + p == |data|)
    ensures Digit(Padded(value, 2 * p)) == CharAt(data, g, p)
  {
    hide Digit;
    var prev := data[3 * g + p - 1];
    if p == 1 {
      Last2(value, prev);
    } else if p == 2 {
      Last4(value, prev);
    } else {
      Last6(value, prev);
    }
  }

  // What the encoder knows at position p of group g: a digit is next, or padding, or the end.
  predicate At(data: seq<byte>, g: nat, p: nat, i: nat, bits: int, value: nat) {
    Writing(data, g, p, i, bits, value) || Padding(data, g, p, i, bits) || Ended(data, g, p, i, bits)
  }

  predicate Padding(data: seq<byte>, g: nat, p: nat, i: nat, bits: int) {
    p < 4 && 3 * g < |data| < 3 * g + p && bits <= 0 && i == |data|
  }

  predicate Ended(data: seq<byte>, g: nat, p: nat, i: nat, bits: int) {
    p == 0 && 3 * g - 3 < |data| <= 3 * g && bits <= 0 && i == |data|
  }

  lemma Starts(data: seq<byte>)
    ensures At(data, 0, 0, 0, 0, 0)
  {
  }

  // The next position.
  function Group(g: nat, p: nat): nat {
    if p == 3 then g + 1 else g
  }

  function Place(p: nat): nat {
    if p == 3 then 0 else p + 1
  }

  lemma AfterDigit(data: seq<byte>, g: nat, p: nat, i: nat, bits: int, value: nat)
    requires Loaded(data, g, p, i, bits, value)
    ensures At(data, Group(g, p), Place(p), i, bits - 6, value)
  {
  }

  lemma AfterPadding(data: seq<byte>, g: nat, p: nat, i: nat, bits: int, value: nat)
    requires Padding(data, g, p, i, bits)
    ensures CharAt(data, g, p) == '='
    ensures At(data, Group(g, p), Place(p), i, bits, value)
  {
  }

  /** The C string `s` in a buffer of characters. */
  ghost predicate Holds(buf: array<char>, s: string)
    reads buf
  {
    |s| < buf.Length && buf[|s|] == '\0' && forall k :: 0 <= k < |s| ==> buf[k] == s[k]
  }

  /**
   * The encoder. A destination that is too small gets the beginning of the text; every
   * destination is terminated.
   */
  method StrBase64(dst: array<char>, dstSize: int, data: seq<byte>)
    requires 1 <= dstSize <= dst.Length
    modifies dst
    ensures Holds(dst, Encode(data)[..Min(|Encode(data)|, dstSize - 1)])
  {
    hide Encode, CharAt, Wrote, Digit, Padded;
    var size := dstSize - 1;
    dst[size] := '\0';
    var value: nat, bits, i: nat, o := 0, 0, 0, 0;
    ghost var g: nat, p: nat := 0, 0;
    Starts(data);
    while true
      invariant o == 4 * g + p <= size && dst[size] == '\0'
      invariant At(data, g, p, i, bits, value)
      invariant o <= |Encode(data)|
      invariant forall k :: 0 <= k < o ==> dst[k] == Encode(data)[k]
      decreases size - o
    {
      ghost var ended := Ended(data, g, p, i, bits);
      if ended {
        EncodeLength(data, g);
      } else {
        EncodeAt(data, g, p);
      }
      i, bits, value := Load(data, g, p, i, bits, value);
      if o == size {
        return;
      }
      if bits > 0 {
        dst[o] := Digit(Padded(value, bits));
        AfterDigit(data, g, p, i, bits, value);
        bits := bits - 6;
        o := o + 1;
      } else if o % 4 != 0 {
        dst[o] := '=';
        AfterPadding(data, g, p, i, bits, value);
        o := o + 1;
      } else {
        dst[o] := '\0';
        return;
      }
      g, p := Group(g, p), Place(p);
    }
  }

  // ---------------------------------------------------------------- decoding

  datatype Decoded = Ok(bytes: seq<byte>) | Failed(code: int)

  // The three bytes of four digit values.
  function Byte0(d0: nat, d1: nat): byte
    requires d0 < 64 && d1 < 64
  {
    d0 * 4 + d1 / 16
  }

  function Byte1(d1: nat, d2: nat): byte
    requires d1 < 64 && d2 < 64
  {
    d1 % 16 * 16 + d2 / 4
  }

  function Byte2(d2: nat, d3: nat): byte
    requires d2 < 64 && d3 < 64
  {
    d2 % 4 * 64 + d3
  }

  // Four characters with `n` bytes in them; the others must be zero.
  function DecodeDigits(c0: char, c1: char, c2: char, c3: char, n: int): (r: Decoded)
    requires 1 <= n <= 3
    ensures r.Ok? ==> |r.bytes| == n
  {
    var d0, d1, d2, d3 := DigitValue(c0), DigitValue(c1), DigitValue(c2), DigitValue(c3);
    if d0 == -1 || d1 == -1 || d2 == -1 || d3 == -1 then Failed(-1)
    else
      var x, y, z := Byte0(d0, d1), Byte1(d1, d2), Byte2(d2, d3);
      if n == 3 then Ok([x, y, z])
      else if n == 2 then (if z != 0 then Failed(-2) else Ok([x, y]))
      else if y != 0 || z != 0 then Failed(-2) else Ok([x])
  }

  // Four characters; only the last four of a text may be padded.
  function DecodeGroup(c0: char, c1: char, c2: char, c3: char, last: bool): Decoded {
    if last && c3 == '=' then
      if c2 == '=' then DecodeDigits(c0, c1, 'A', 'A', 1) else DecodeDigits(c0, c1, c2, 'A', 2)
    else DecodeDigits(c0, c1, c2, c3, 3)
  }

  function DecodeGroups(s: string): Decoded
    requires |s| % 4 == 0
    decreases |s|
  {
    if s == "" then Ok([])
    else
      var first := DecodeGroup(s[0], s[1], s[2], s[3], |s| == 4);
      if first.Failed? then first
      else
        var rest := DecodeGroups(s[4..]);
        if rest.Failed? then rest else Ok(first.bytes + rest.bytes)
  }

  /** What str_base64_decode makes of `s` with room for `size` bytes. */
  function Decode(s: string, size: int): Decoded {
    if |s| % 4 != 0 then Failed(-3)
    else if |s| / 4 * 3 > size then Failed(-2)
    else DecodeGroups(s)
  }

  // ---------------------------------------------------------------- the two are inverse

  lemma DigitNotPad(v: int)
    requires 0 <= v < 64
    ensures Digit(v) != '='
  {
  }

  lemma RegroupBytes(x: byte, y: byte, z: byte)
    ensures Byte0(x / 4, x % 4 * 16 + y / 16) == x
    ensures Byte1(x % 4 * 16 + y / 16, y % 16 * 4 + z / 64) == y
    ensures Byte2(y % 16 * 4 + z / 64, z % 64) == z
  {
  }

  lemma RegroupDigits(d0: nat, d1: nat, d2: nat, d3: nat)
    requires d0 < 64 && d1 < 64 && d2 < 64 && d3 < 64
    ensures Byte0(d0, d1) / 4 == d0
    ensures Byte0(d0, d1) % 4 * 16 + Byte1(d1, d2) / 16 == d1
    ensures Byte1(d1, d2) % 16 * 4 + Byte2(d2, d3) / 64 == d2
    ensures Byte2(d2, d3) % 64 == d3
  {
  }

  lemma GroupRoundTrip(x: byte, y: byte, z: byte, last: bool)
    ensures var s := EncodeGroup(x, y, z);
      DecodeGroup(s[0], s[1], s[2], s[3], last) == Ok([x, y, z])
  {
    hide Digit, Byte0, Byte1, Byte2;
    RegroupBytes(x, y, z);
    DigitNotPad(z % 64);
  }

  lemma PairRoundTrip(x: byte, y: byte)
    ensures var s := Encode([x, y]);
      |s| == 4 && DecodeGroup(s[0], s[1], s[2], s[3], true) == Ok([x, y])
  {
    hide Digit, Byte0, Byte1, Byte2;
    RegroupBytes(x, y, 0);
    DigitNotPad(y % 16 * 4);
  }

  lemma SingleRoundTrip(x: byte)
    ensures var s := Encode([x]);
      |s| == 4 && DecodeGroup(s[0], s[1], s[2], s[3], true) == Ok([x])
  {
    hide Digit, Byte0, Byte1, Byte2;
    RegroupBytes(x, 0, 0);
  }

  /** Decoding what was encoded gives the bytes back. */
  lemma {:induction false} DecodeEncode(data: seq<byte>)
    ensures |Encode(data)| % 4 == 0 && DecodeGroups(Encode(data)) == Ok(data)
    decreases |data|
  {
    hide DecodeGroup, EncodeGroup, Digit;
    var s := Encode(data);
    if |data| == 1 {
      assert data == [data[0]];
      SingleRoundTrip(data[0]);
      assert s[4..] == "" && data + [] == data;
    } else if |data| == 2 {
      assert data == [data[0], data[1]];
      PairRoundTrip(data[0], data[1]);
      assert s[4..] == "" && data + [] == data;
    } else if |data| >= 3 {
      DecodeEncode(data[3..]);
      GroupRoundTrip(data[0], data[1], data[2], |s| == 4);
      assert s[4..] == Encode(data[3..]);
      assert data == [data[0], data[1], data[2]] + data[3..];
    }
  }

  lemma FullGroupBack(c0: char, c1: char, c2: char, c3: char)
    requires DecodeDigits(c0, c1, c2, c3, 3).Ok?
    ensures var b := DecodeDigits(c0, c1, c2, c3, 3).bytes;
      EncodeGroup(b[0], b[1], b[2]) == [c0, c1, c2, c3]
  {
    hide Digit, DigitValue, Byte0, Byte1, Byte2;
    RegroupDigits(DigitValue(c0), DigitValue(c1), DigitValue(c2), DigitValue(c3));
    DigitOfValue(c0);
    DigitOfValue(c1);
    DigitOfValue(c2);
    DigitOfValue(c3);
  }

  lemma PaddedGroupBack(c0: char, c1: char, c2: char, c3: char)
    requires c3 == '=' && DecodeGroup(c0, c1, c2, c3, true).Ok?
    ensures Encode(DecodeGroup(c0, c1, c2, c3, true).bytes) == [c0, c1, c2, c3]
  {
    if c2 == '=' {
      FullGroupBack(c0, c1, 'A', 'A');
    } else {
      FullGroupBack(c0, c1, c2, 'A');
    }
  }

  lemma EncodeFront(b: seq<byte>, rest: seq<byte>)
    requires |b| == 3
    ensures Encode(b + rest) == EncodeGroup(b[0], b[1], b[2]) + Encode(rest)
  {
    hide EncodeGroup, Digit;
    assert (b + rest)[3..] == rest;
  }

  lemma FullGroupKind(c0: char, c1: char, c2: char, c3: char, last: bool)
    requires DecodeGroup(c0, c1, c2, c3, last).Ok? && !(last && c3 == '=')
    ensures var b := DecodeGroup(c0, c1, c2, c3, last).bytes;
      |b| == 3 && EncodeGroup(b[0], b[1], b[2]) == [c0, c1, c2, c3]
  {
    FullGroupBack(c0, c1, c2, c3);
  }

  /** Encoding what was decoded gives the text back: every accepted text is canonical. */
  lemma {:induction false} EncodeDecode(s: string)
    requires |s| % 4 == 0 && DecodeGroups(s).Ok?
    ensures Encode(DecodeGroups(s).bytes) == s
    decreases |s|
  {
    hide Encode, EncodeGroup, DecodeGroup;
    if s == "" {
      EncodeNothing();
    } else {
      var b := DecodeGroup(s[0], s[1], s[2], s[3], |s| == 4).bytes;
      assert s == [s[0], s[1], s[2], s[3]] + s[4..];
      EncodeDecode(s[4..]);
      if |s| == 4 && s[3] == '=' {
        PaddedGroupBack(s[0], s[1], s[2], s[3]);
        assert s[4..] == "" && b + [] == b;
      } else {
        FullGroupKind(s[0], s[1], s[2], s[3], |s| == 4);
        EncodeFront(b, DecodeGroups(s[4..]).bytes);
      }
    }
  }

  lemma EncodeNothing()
    ensures Encode([]) == ""
  {
  }

  /** Exactly the encoded texts are accepted, each for its own bytes, given room for whole groups. */
  lemma DecodeAcceptsExactly(s: string, data: seq<byte>, size: int)
    ensures Decode(s, size) == Ok(data) <==> s == Encode(data) && |s| / 4 * 3 <= size
  {
    hide Encode, DecodeGroups;
    if Decode(s, size) == Ok(data) {
      EncodeDecode(s);
    }
    if s == Encode(data) {
      DecodeEncode(data);
    }
  }

  // One group of the decoding loop, written at `o`; the result is the new `o` or a failure.
  method StoreGroup(dst: array<byte>, o: nat, c0: char, c1: char, c2: char, c3: char, last: bool) returns (r: int)
    requires o + 3 <= dst.Length
    modifies dst
    ensures match DecodeGroup(c0, c1, c2, c3, last)
      case Ok(b) => r == o + |b| <= o + 3 && dst[..r] == old(dst[..o]) + b
      case Failed(code) => r == code < 0
  {
    hide Digit;
    var num, copy2, copy3 := 3, c2, c3;
    if last && copy3 == '=' {
      copy3 := 'A';
      num := 2;
      if copy2 == '=' {
        copy2 := 'A';
        num := 1;
      }
    }
    r := StoreDigits(dst, o, c0, c1, copy2, copy3, num);
  }

  method StoreDigits(dst: array<byte>, o: nat, c0: char, c1: char, c2: char, c3: char, num: int) returns (r: int)
    requires o + 3 <= dst.Length && 1 <= num <= 3
    modifies dst
    ensures match DecodeDigits(c0, c1, c2, c3, num)
      case Ok(b) => r == o + |b| <= o + 3 && dst[..r] == old(dst[..o]) + b
      case Failed(code) => r == code < 0
  {
    hide DigitValue, Byte0, Byte1, Byte2;
    var d0, d1, d2, d3 := DigitValue(c0), DigitValue(c1), DigitValue(c2), DigitValue(c3);
    if d0 == -1 || d1 == -1 || d2 == -1 || d3 == -1 {
      return -1;
    }
    var x, y, z := ValueBytes(d0, d1, d2, d3);
    r := o;
    dst[r] := x;
    r := r + 1;
    if num > 1 {
      dst[r] := y;
      r := r + 1;
    } else if y != 0 {
      return -2;
    }
    if num > 2 {
      dst[r] := z;
      r := r + 1;
    } else if z != 0 {
      return -2;
    }
  }

  // The 24-bit value of four digits, and its bytes.
  method ValueBytes(d0: nat, d1: nat, d2: nat, d3: nat) returns (x: byte, y: byte, z: byte)
    requires d0 < 64 && d1 < 64 && d2 < 64 && d3 < 64
    ensures x == Byte0(d0, d1) && y == Byte1(d1, d2) && z == Byte2(d2, d3)
  {
    var value := d0 * 0x4_0000 + d1 * 0x1000 + d2 * 0x40 + d3;
    Regroup(d0, d1, d2, d3);
    SplitBytes(value, Byte0(d0, d1), Byte1(d1, d2), Byte2(d2, d3));
    hide Byte0, Byte1, Byte2;
    x := value / 0x1_0000 % 0x100;
    y := value / 0x100 % 0x100;
    z := value % 0x100;
  }

  lemma Regroup(d0: nat, d1: nat, d2: nat, d3: nat)
    requires d0 < 64 && d1 < 64 && d2 < 64 && d3 < 64
    ensures d0 * 0x4_0000 + d1 * 0x1000 + d2 * 0x40 + d3
         == Byte0(d0, d1) * 0x1_0000 + Byte1(d1, d2) * 0x100 + Byte2(d2, d3)
  {
    assert d1 == d1 / 16 * 16 + d1 % 16 && d2 == d2 / 4 * 4 + d2 % 4;
  }

  lemma SplitBytes(value: nat, x: byte, y: byte, z: byte)
    requires value == x * 0x1_0000 + y * 0x100 + z
    ensures value / 0x1_0000 % 0x100 == x && value / 0x100 % 0x100 == y && value % 0x100 == z
  {
    assert value / 0x100 == x * 0x100 + y;
    assert value / 0x1_0000 == x;
  }

  /** The decoder: the bytes and their number, or the error code. */
  method StrBase64Decode(dst: array<byte>, dstSize: nat, data: string) returns (r: int)
    requires dstSize <= dst.Length
    modifies dst
    ensures match Decode(data, dstSize)
      case Ok(b) => r == |b| <= dstSize && dst[..r] == b
      case Failed(code) => r == code < 0
  {
    hide DecodeGroup, DecodeGroups, After;
    var len := |data|;
    if len % 4 != 0 {
      return -3;
    }
    if len / 4 * 3 > dstSize {
      return -2;
    }
    var o, i := 0, 0;
    NothingRead(data);
    while i < len
      invariant 0 <= i <= len && i % 4 == 0 && 0 <= 4 * o <= 3 * i
      invariant After(dst[..o], DecodeGroups(data[i..])) == DecodeGroups(data)
    {
      var c0, c1, c2, c3 := data[i], data[i + 1], data[i + 2], data[i + 3];
      GroupRead(data, i, dst[..o]);
      var n := StoreGroup(dst, o, c0, c1, c2, c3, i == len - 4);
      if n < 0 {
        return n;
      }
      o := n;
      i := i + 4;
    }
    AllRead(data, dst[..o]);
    r := o;
  }

  // The start, one round and the end of the loop: what is decoded is the bytes so far and the rest.
  lemma NothingRead(data: string)
    requires |data| % 4 == 0
    ensures After([], DecodeGroups(data[0..])) == DecodeGroups(data)
  {
    hide DecodeGroups;
    assert data[0..] == data;
  }

  lemma GroupRead(data: string, i: nat, front: seq<byte>)
    requires i + 4 <= |data| && |data| % 4 == 0 && i % 4 == 0
    ensures |data[i + 4..]| % 4 == 0 && |data[i..]| % 4 == 0
    ensures var first := DecodeGroup(data[i], data[i + 1], data[i + 2], data[i + 3], i == |data| - 4);
      After(front, DecodeGroups(data[i..])) ==
        if first.Failed? then first else After(front + first.bytes, DecodeGroups(data[i + 4..]))
  {
    hide DecodeGroup, DecodeGroups;
    GroupsNext(data, i);
    var first := DecodeGroup(data[i], data[i + 1], data[i + 2], data[i + 3], i == |data| - 4);
    if first.Ok? {
      AfterNext(front, first.bytes, DecodeGroups(data[i + 4..]));
      hide After;
    }
  }

  lemma AllRead(data: string, front: seq<byte>)
    ensures After(front, DecodeGroups(data[|data|..])) == Ok(front)
  {
    assert data[|data|..] == "" && front + [] == front;
  }

  function After(front: seq<byte>, d: Decoded): Decoded {
    if d.Failed? then d else Ok(front + d.bytes)
  }

  lemma AfterNext(front: seq<byte>, b: seq<byte>, d: Decoded)
    ensures After(front + b, d) == After(front, After(b, d))
  {
    if d.Ok? {
      assert front + b + d.bytes == front + (b + d.bytes);
    }
  }

  lemma GroupsNext(data: string, i: nat)
    requires i + 4 <= |data| && |data| % 4 == 0 && i % 4 == 0
    ensures |data[i + 4..]| % 4 == 0 && |data[i..]| % 4 == 0
    ensures var first := DecodeGroup(data[i], data[i + 1], data[i + 2], data[i + 3], i == |data| - 4);
      DecodeGroups(data[i..]) == if first.Failed? then first else After(first.bytes, DecodeGroups(data[i + 4..]))
  {
    hide DecodeGroup;
    assert data[i..][4..] == data[i + 4..];
  }
}
