/**
 * str_utf8_dist and str_utf8_dist_buffer of src/base/str.cpp: both strings are decoded to the
 * front of one buffer, and the two rows of the distance table live behind them.
 */
module Utf8Dist {
  import opened Base
  import opened Utf8
  import opened EditDistance

  /** The code points that repeated decoding reads from `i` on, with -1 for malformed ones. */
  function DecodeAll(s: seq<byte>, i: nat): (cps: seq<int>)
    requires CString(s) && i <= |s|
    ensures |cps| <= |s| - i
    decreases |s| - i
  {
    DecodeProgress(s, i);
    var d := Decode(s, i);
    if d.cp == 0 then [] else [d.cp] + DecodeAll(s, d.next)
  }

  /** For a valid string, these are its code points. */
  lemma {:induction false} DecodeAllValid(cps: seq<int>, s: seq<byte>, i: nat)
    requires CString(s) && i <= |s| && Chars(cps) && s[i..] == EncodeAll(cps)
    ensures DecodeAll(s, i) == cps
    decreases |cps|
  {
    hide Decode, Encode;
    DecodeProgress(s, i);
    if cps != [] {
      hide EncodeAll;
      EncodeNonZero(cps[0]);
      EncodeAllTail(s, i, cps);
      DecodeEncode(s, i, cps[0]);
      DecodeAllValid(cps[1..], s, i + |Encode(cps[0])|);
      assert cps == [cps[0]] + cps[1..];
    }
  }

  ghost predicate Written(out: array<int>, at: nat, cps: seq<int>)
    reads out
  {
    at + |cps| < out.Length && forall k :: 0 <= k < |cps| ==> out[at + k] == cps[k]
  }

  /** Decode to `out[at..]`, ending with a 0 that the length does not count. */
  method ToUtf32Unchecked(s: seq<byte>, out: array<int>, at: nat) returns (len: nat)
    requires CString(s) && at + |s| < out.Length
    modifies out
    ensures len == |DecodeAll(s, 0)| && Written(out, at, DecodeAll(s, 0))
    ensures forall k :: 0 <= k < at ==> out[k] == old(out[k])
  {
    ghost var all := DecodeAll(s, 0);
    len := 0;
    var ptr := 0;
    assert all[0..] == all;
    while true
      invariant ptr <= |s| && len <= |all| && all[len..] == DecodeAll(s, ptr)
      invariant forall k :: 0 <= k < len ==> out[at + k] == all[k]
      invariant forall k :: 0 <= k < at ==> out[k] == old(out[k])
      decreases |s| - ptr
    {
      DecodeProgress(s, ptr);
      var cp, next := Utf8Decode(s, ptr);
      out[at + len] := cp;
      if cp == 0 {
        return;
      }
      assert all[len] == all[len..][0] == cp;
      assert all[len + 1..] == all[len..][1..] == DecodeAll(s, next);
      len := len + 1;
      ptr := next;
    }
  }

  /**
   * The edit distance of the code point sequences. The documented buffer size is exactly what
   * keeps the two decoded strings and the two rows apart: the rows start where the second
   * string ends, over its terminator.
   */
  method Utf8DistBuffer(a8: seq<byte>, b8: seq<byte>, buf: array<int>, bufLen: nat) returns (d: int)
    requires CString(a8) && CString(b8)
    requires 2 * (|a8| + 1 + |b8| + 1) <= bufLen <= buf.Length
    modifies buf
    ensures d == Dist(DecodeAll(a8, 0), DecodeAll(b8, 0))
  {
    hide DecodeAll, Dist;
    var x, y := a8, b8;
    if |a8| > |b8| {
      x, y := b8, a8;
    }
    var aLen := ToUtf32Unchecked(x, buf, 0);
    var bLen := ToUtf32Unchecked(y, buf, aLen);
    assert buf[0..0 + aLen] == DecodeAll(x, 0);
    assert buf[aLen..aLen + bLen] == DecodeAll(y, 0);
    d := Utf32DistBuffer(buf, 0, aLen, buf, aLen, bLen, buf, aLen + bLen, bufLen - bLen - aLen);
    DistSymmetric(DecodeAll(x, 0), DecodeAll(y, 0));
  }

  method DistOf(a8: seq<byte>, b8: seq<byte>) returns (d: int)
    requires CString(a8) && CString(b8)
    ensures d == Dist(DecodeAll(a8, 0), DecodeAll(b8, 0))
  {
    var bufLen := 2 * (|a8| + 1 + |b8| + 1);
    var buf := new int[bufLen](_ => 0);
    d := Utf8DistBuffer(a8, b8, buf, bufLen);
  }

  /** The distance of two valid strings is the least number of code point edits between them. */
  lemma DistOfValid(xs: seq<int>, ys: seq<int>)
    requires Chars(xs) && Chars(ys)
    ensures CString(EncodeAll(xs)) && CString(EncodeAll(ys))
    ensures var d := Dist(DecodeAll(EncodeAll(xs), 0), DecodeAll(EncodeAll(ys), 0));
      && (exists es :: Turns(xs, es, ys) && |es| == d)
      && (forall es :: Turns(xs, es, ys) ==> |es| >= d)
  {
    EncodeAllNonZero(xs);
    EncodeAllNonZero(ys);
    assert EncodeAll(xs)[0..] == EncodeAll(xs) && EncodeAll(ys)[0..] == EncodeAll(ys);
    DecodeAllValid(xs, EncodeAll(xs), 0);
    DecodeAllValid(ys, EncodeAll(ys), 0);
    DistIsLeast(xs, ys);
  }
}
