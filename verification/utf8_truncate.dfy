/**
 * Copying into a buffer of limited size without cutting a code point: str_copy, str_append and
 * str_utf8_fix_truncation of src/base/str.cpp. Buffers are arrays written in place.
 */
module Utf8Truncate {
  import opened Base
  import opened Utf8

  /** The buffer holds the C string `s`. */
  ghost predicate Holds(buf: array<byte>, s: seq<byte>)
    reads buf
  {
    && |s| < buf.Length && buf[|s|] == 0 && CString(s)
    && forall k :: 0 <= k < |s| ==> buf[k] == s[k]
  }

  /** `r` is the longest valid prefix of `s` with at most `cap` bytes. */
  ghost predicate LongestFit(s: seq<byte>, cap: nat, r: seq<byte>) {
    && r <= s && |r| <= cap && ValidUtf8(r)
    && forall p :: p <= s && |p| <= cap && ValidUtf8(p) ==> |p| <= |r|
  }

  method StrLength(str: array<byte>, ghost s: seq<byte>) returns (n: nat)
    requires Holds(str, s)
    ensures n == |s|
  {
    n := 0;
    while str[n] != 0
      invariant n <= |s|
      decreases |s| - n
    {
      n := n + 1;
    }
  }

  // ---------------------------------------------------------------- rewinding

  // str_utf8_isstart
  predicate IsStart(b: byte) {
    !Follow(b)
  }

  function RewindFrom(s: seq<byte>, cursor: nat): (r: nat)
    requires cursor <= |s|
    ensures r <= cursor && (cursor > 0 ==> r < cursor)
  {
    if cursor == 0 then 0
    else if IsStart(s[cursor - 1]) then cursor - 1
    else RewindFrom(s, cursor - 1)
  }

  method Utf8Rewind(str: array<byte>, cursor: nat, ghost s: seq<byte>) returns (r: nat)
    requires Holds(str, s) && cursor <= |s|
    ensures r == RewindFrom(s, cursor)
  {
    r := cursor;
    while r > 0
      invariant r <= cursor && RewindFrom(s, r) == RewindFrom(s, cursor)
    {
      r := r - 1;
      assert str[r] == s[r];
      if !(0x80 <= str[r] < 0xC0) {
        break;
      }
    }
  }

  lemma {:induction false} RewindToStart(s: seq<byte>, at: nat, cursor: nat)
    requires at < cursor <= |s| && IsStart(s[at])
    requires forall k :: at < k < cursor ==> Follow(s[k])
    ensures RewindFrom(s, cursor) == at
    decreases cursor
  {
    if at < cursor - 1 {
      RewindToStart(s, at, cursor - 1);
    }
  }

  // ---------------------------------------------------------------- fixing a cut string

  function Fixed(s: seq<byte>): (r: seq<byte>)
    ensures r <= s
  {
    if s != [] && Decode(s, RewindFrom(s, |s|)).cp == -1 then s[..RewindFrom(s, |s|)] else s
  }

  method Utf8FixTruncation(str: array<byte>, ghost s: seq<byte>) returns (n: nat)
    requires Holds(str, s)
    modifies str
    ensures n == |Fixed(s)| && Holds(str, Fixed(s))
    ensures forall k :: |s| <= k < str.Length ==> str[k] == old(str[k])
  {
    n := StrLength(str, s);
    if n > 0 {
      var last := Utf8Rewind(str, n, s);
      assert str[..n] == s;
      var cp, next := Utf8Decode(str[..n], last);
      if cp == -1 {
        str[last] := 0;
        return last;
      }
    }
  }

  // ---------------------------------------------------------------- why that is right

  // Encoded code points: the first byte is a start byte, the others are not.
  lemma EncodeStarts(c: int)
    requires Char(c)
    ensures var e := Encode(c);
      e != [] && IsStart(e[0]) && forall k :: 0 < k < |e| ==> Follow(e[k])
  {
    if c > 0x7F {
      EncodeShape(c);
    }
  }

  // No encoding is a proper prefix of another.
  lemma EncodePrefixFree(c: int, d: int)
    requires Char(c) && Char(d) && Encode(c) <= Encode(d)
    ensures c == d
  {
    var s := Encode(d);
    assert s[0..] == s;
    DecodeEncode(s, 0, c);
    DecodeEncode(s, 0, d);
  }

  lemma {:induction false} EncodeAllConcat(xs: seq<int>, ys: seq<int>)
    ensures EncodeAll(xs + ys) == EncodeAll(xs) + EncodeAll(ys)
    decreases |xs|
  {
    if xs == [] {
      assert xs + ys == ys;
    } else {
      assert (xs + ys)[1..] == xs[1..] + ys;
      EncodeAllConcat(xs[1..], ys);
    }
  }

  lemma EncodeAllOne(c: int)
    ensures EncodeAll([c]) == Encode(c)
  {
    assert [c][1..] == [];
  }

  // A valid string is left alone.
  lemma FixedKeepsWhole(xs: seq<int>)
    requires Chars(xs)
    ensures Fixed(EncodeAll(xs)) == EncodeAll(xs)
  {
    if xs != [] {
      var c := xs[|xs| - 1];
      var s, e := EncodeAll(xs), Encode(c);
      assert xs == xs[..|xs| - 1] + [c];
      EncodeAllConcat(xs[..|xs| - 1], [c]);
      EncodeAllOne(c);
      EncodeStarts(c);
      var at := |s| - |e|;
      assert s[at..] == e;
      RewindToStart(s, at, |s|);
      DecodeEncode(s, at, c);
    }
  }

  // What is left of a code point that was cut is dropped.
  lemma FixedDropsPart(xs: seq<int>, c: int, part: seq<byte>)
    requires Chars(xs) && Char(c) && part < Encode(c) && part != []
    ensures Fixed(EncodeAll(xs) + part) == EncodeAll(xs)
  {
    var s, at := EncodeAll(xs) + part, |EncodeAll(xs)|;
    EncodeStarts(c);
    EncodeAllNonZero(xs);
    EncodeNonZero(c);
    RewindToStart(s, at, |s|);
    assert s[at..] == part;
    PartFails(s, at, c);
  }

  lemma PartFails(s: seq<byte>, at: nat, c: int)
    requires CString(s) && at < |s| && Char(c) && s[at..] < Encode(c)
    ensures Decode(s, at).cp == -1
  {
    DecodeFailsIff(s, at);
    forall d | Char(d) && Encode(d) <= s[at..] ensures false {
      EncodePrefixFree(d, c);
    }
  }

  // How many code points fit whole.
  function Whole(cps: seq<int>, cap: nat): (k: nat)
    requires Chars(cps)
    ensures k <= |cps|
    decreases |cps|
  {
    if cps == [] || |Encode(cps[0])| > cap then 0
    else 1 + Whole(cps[1..], cap - |Encode(cps[0])|)
  }

  lemma {:induction false} WholeFits(cps: seq<int>, cap: nat)
    requires Chars(cps)
    ensures var k := Whole(cps, cap);
      && |EncodeAll(cps[..k])| <= cap
      && (k < |cps| ==> cap < |EncodeAll(cps[..k])| + |Encode(cps[k])|)
    decreases |cps|
  {
    if cps != [] && |Encode(cps[0])| <= cap {
      var k := Whole(cps, cap);
      WholeFits(cps[1..], cap - |Encode(cps[0])|);
      assert cps[..k] == [cps[0]] + cps[1..][..k - 1];
      assert cps[..k][1..] == cps[1..][..k - 1];
    }
  }

  // A valid prefix of a valid string is made of its first code points.
  lemma {:induction false} ValidPrefix(cps: seq<int>, xs: seq<int>)
    requires Chars(cps) && Chars(xs) && EncodeAll(xs) <= EncodeAll(cps)
    ensures xs <= cps
    decreases |xs|
  {
    if xs != [] {
      EncodeNonZero(xs[0]);
      var s := EncodeAll(cps);
      assert s[0..] == s;
      assert cps != [];
      DecodeEncode(s, 0, xs[0]);
      DecodeEncode(s, 0, cps[0]);
      var n := |Encode(xs[0])|;
      assert EncodeAll(xs[1..]) == EncodeAll(xs)[n..] <= s[n..] == EncodeAll(cps[1..]);
      ValidPrefix(cps[1..], xs[1..]);
    }
  }

  lemma {:induction false} EncodeAllGrows(cps: seq<int>, j: nat, k: nat)
    requires j <= k <= |cps|
    ensures EncodeAll(cps[..j]) <= EncodeAll(cps[..k])
  {
    assert cps[..k] == cps[..j] + cps[j..k];
    EncodeAllConcat(cps[..j], cps[j..k]);
  }

  // The first `cap` bytes are the whole code points that fit and a part of the next one.
  lemma CutShape(cps: seq<int>, cap: nat) returns (part: seq<byte>)
    requires Chars(cps) && cap <= |EncodeAll(cps)|
    ensures var k := Whole(cps, cap);
      && EncodeAll(cps)[..cap] == EncodeAll(cps[..k]) + part
      && (if k == |cps| then part == [] else part < Encode(cps[k]))
  {
    hide EncodeAll, Encode, Whole;
    var k := Whole(cps, cap);
    WholeFits(cps, cap);
    var s, w, rest := EncodeAll(cps), EncodeAll(cps[..k]), EncodeAll(cps[k..]);
    assert cps == cps[..k] + cps[k..];
    EncodeAllConcat(cps[..k], cps[k..]);
    assert s == w + rest;
    part := rest[..cap - |w|];
    assert s[..cap] == w + part;
    if k < |cps| {
      EncodeAllFirst(cps[k..]);
      var e := Encode(cps[k]);
      assert part == e[..cap - |w|];
    } else {
      EncodeAllNothing();
    }
  }

  lemma EncodeAllFirst(cps: seq<int>)
    requires cps != []
    ensures EncodeAll(cps) == Encode(cps[0]) + EncodeAll(cps[1..])
  {
  }

  lemma EncodeAllNothing()
    ensures EncodeAll([]) == []
  {
  }

  /** What is left of `s` in a buffer of `size` bytes. */
  function Cut(s: seq<byte>, size: int): seq<byte>
    requires size >= 1
  {
    Fixed(s[..Min(|s|, size - 1)])
  }

  // The fix leaves the whole code points that fit.
  lemma CutIsWhole(cps: seq<int>, n: nat)
    requires Chars(cps) && n <= |EncodeAll(cps)|
    ensures Fixed(EncodeAll(cps)[..n]) == EncodeAll(cps[..Whole(cps, n)])
  {
    hide Fixed, EncodeAll, Encode;
    var k := Whole(cps, n);
    var part := CutShape(cps, n);
    if part == [] {
      assert EncodeAll(cps)[..n] == EncodeAll(cps[..k]);
      FixedKeepsWhole(cps[..k]);
    } else {
      FixedDropsPart(cps[..k], cps[k], part);
    }
    hide Whole;
  }

  /** Of a valid string, the longest valid prefix that fits. */
  lemma CutIsLongest(s: seq<byte>, size: int)
    requires ValidUtf8(s) && size >= 1
    ensures LongestFit(s, size - 1, Cut(s, size))
  {
    hide Fixed, EncodeAll, Whole;
    var cps :| Chars(cps) && EncodeAll(cps) == s;
    var n := Min(|s|, size - 1);
    var r := EncodeAll(cps[..Whole(cps, n)]);
    CutIsWhole(cps, n);
    WholeFits(cps, n);
    EncodeAllGrows(cps, Whole(cps, n), |cps|);
    assert cps[..|cps|] == cps;
    forall p | p <= s && |p| <= size - 1 && ValidUtf8(p) ensures |p| <= |r| {
      NoLongerFit(cps, n, p);
    }
  }

  lemma NoLongerFit(cps: seq<int>, n: nat, p: seq<byte>)
    requires Chars(cps)
    ensures p <= EncodeAll(cps) && |p| <= n && ValidUtf8(p) ==> |p| <= |EncodeAll(cps[..Whole(cps, n)])|
  {
    hide EncodeAll, Encode, Whole;
    if p <= EncodeAll(cps) && |p| <= n && ValidUtf8(p) {
      var xs :| Chars(xs) && EncodeAll(xs) == p;
      ValidPrefix(cps, xs);
      assert xs == cps[..|xs|];
      if |xs| > Whole(cps, n) {
        OneMoreTooMany(cps, n, |xs|);
      } else {
        EncodeAllGrows(cps, |xs|, Whole(cps, n));
      }
    }
  }

  lemma OneMoreTooMany(cps: seq<int>, n: nat, m: nat)
    requires Chars(cps) && Whole(cps, n) < m <= |cps|
    ensures |EncodeAll(cps[..m])| > n
  {
    hide EncodeAll, Encode, Whole;
    var k := Whole(cps, n);
    WholeFits(cps, n);
    EncodeAllGrows(cps, k + 1, m);
    assert cps[..k + 1] == cps[..k] + [cps[k]];
    EncodeAllConcat(cps[..k], [cps[k]]);
    EncodeAllOne(cps[k]);
  }

  // ---------------------------------------------------------------- the copying functions

  // The first bytes of `s` are in place and terminated.
  lemma HoldsCut(buf: array<byte>, s: seq<byte>, n: nat)
    requires n <= |s| && n < buf.Length && buf[n] == 0 && CString(s)
    requires forall k :: 0 <= k < n ==> buf[k] == s[k]
    ensures Holds(buf, s[..n])
  {
  }

  /** strncat onto the empty string, then the fix. */
  method StrCopy(dst: array<byte>, src: seq<byte>, dstSize: int) returns (n: nat)
    requires CString(src) && 1 <= dstSize <= dst.Length
    modifies dst
    ensures n == |Cut(src, dstSize)| && Holds(dst, Cut(src, dstSize))
    ensures forall k :: dstSize <= k < dst.Length ==> dst[k] == old(dst[k])
  {
    dst[0] := 0;
    StrNCat(dst, src, dstSize - 1);
    n := Utf8FixTruncation(dst, src[..Min(|src|, dstSize - 1)]);
  }

  // strncat, for an empty string in `dst`.
  method StrNCat(dst: array<byte>, src: seq<byte>, count: nat)
    requires CString(src) && count < dst.Length
    modifies dst
    ensures Holds(dst, src[..Min(|src|, count)])
    ensures forall k :: count < k < dst.Length ==> dst[k] == old(dst[k])
  {
    var i := 0;
    while i < count && At(src, i) != 0
      invariant 0 <= i <= Min(|src|, count)
      invariant forall k :: 0 <= k < i ==> dst[k] == src[k]
      invariant forall k :: count < k < dst.Length ==> dst[k] == old(dst[k])
    {
      dst[i] := src[i];
      i := i + 1;
    }
    dst[i] := 0;
    HoldsCut(dst, src, i);
  }

  /**
   * The bytes of `src` behind the string in `dst`, then the fix over the whole. A string that
   * fills the buffer already, or is longer, is cut to it.
   */
  method StrAppend(dst: array<byte>, src: seq<byte>, dstSize: int, ghost was: seq<byte>)
    requires CString(src) && 1 <= dstSize <= dst.Length
    requires Holds(dst, was)
    modifies dst
    ensures Holds(dst, Cut(was + src, dstSize))
    ensures forall k :: dstSize <= k < dst.Length ==> dst[k] == old(dst[k])
  {
    ghost var whole := was + src;
    var s := StrLength(dst, was);
    var i := 0;
    while s < dstSize
      invariant 0 <= i <= |src| && s == |was| + i && (i == 0 || s <= dstSize)
      invariant forall k :: 0 <= k < s ==> dst[k] == whole[k]
      invariant forall k :: dstSize <= k < dst.Length ==> dst[k] == old(dst[k])
    {
      dst[s] := At(src, i);
      if At(src, i) == 0 {
        break;
      }
      s := s + 1;
      i := i + 1;
    }
    dst[dstSize - 1] := 0;
    ghost var n := Min(|whole|, dstSize - 1);
    HoldsCut(dst, whole, n);
    var _ := Utf8FixTruncation(dst, whole[..n]);
  }

  /**
   * Appending valid text to valid text leaves the longest valid prefix of both together, which
   * keeps the first text where that fits.
   */
  lemma AppendIsLongest(s: seq<byte>, t: seq<byte>, size: int)
    requires ValidUtf8(s) && ValidUtf8(t) && size >= 1
    ensures LongestFit(s + t, size - 1, Cut(s + t, size))
    ensures size > |s| ==> s <= Cut(s + t, size)
  {
    hide ValidUtf8, Cut;
    ValidConcat(s, t);
    CutIsLongest(s + t, size);
    assert s <= s + t;
  }

  lemma ValidConcat(s: seq<byte>, t: seq<byte>)
    requires ValidUtf8(s) && ValidUtf8(t)
    ensures ValidUtf8(s + t)
  {
    var xs :| Chars(xs) && EncodeAll(xs) == s;
    var ys :| Chars(ys) && EncodeAll(ys) == t;
    EncodeAllConcat(xs, ys);
    assert Chars(xs + ys);
  }
}
