/**
 * UTF-8 strings compare byte by byte as their code points compare (section 1 of RFC 3629), and
 * which bytes some code points have: str_utf8_encode of src/base/str.cpp.
 */
module Utf8Order {
  import opened Base
  import opened Utf8

  /** Section 7 of RFC 3629, and the ends of each length. */
  lemma Examples()
    ensures Encode(0x41) == [0x41] && Encode(0x2262) == [0xE2, 0x89, 0xA2] && Encode(0x391) == [0xCE, 0x91]
    ensures Encode(0xD55C) == [0xED, 0x95, 0x9C] && Encode(0x233B4) == [0xF0, 0xA3, 0x8E, 0xB4]
    ensures Encode(0x7F) == [0x7F] && Encode(0x80) == [0xC2, 0x80] && Encode(0x7FF) == [0xDF, 0xBF]
    ensures Encode(0x800) == [0xE0, 0xA0, 0x80] && Encode(0xFFFF) == [0xEF, 0xBF, 0xBF]
    ensures Encode(0x10000) == [0xF0, 0x90, 0x80, 0x80] && Encode(0x10FFFF) == [0xF4, 0x8F, 0xBF, 0xBF]
  {
  }

  // ---------------------------------------------------------------- the order of sequences

  // Dictionary order.
  predicate Less(a: seq<int>, b: seq<int>) {
    b != [] && (a == [] || a[0] < b[0] || (a[0] == b[0] && Less(a[1..], b[1..])))
  }

  // Alike before k, and less there.
  predicate Below(a: seq<int>, b: seq<int>, k: nat) {
    k < |a| && k < |b| && a[..k] == b[..k] && a[k] < b[k]
  }

  lemma {:induction false} BelowLess(a: seq<int>, b: seq<int>, k: nat, r: seq<int>, t: seq<int>)
    requires Below(a, b, k)
    ensures Less(a + r, b + t)
  {
    if k > 0 {
      assert a[..k][0] == a[0] && b[..k][0] == b[0];
      assert (a + r)[1..] == a[1..] + r && (b + t)[1..] == b[1..] + t;
      assert a[1..][..k - 1] == a[..k][1..] && b[1..][..k - 1] == b[..k][1..];
      BelowLess(a[1..], b[1..], k - 1, r, t);
    }
  }

  lemma {:induction false} LessAfter(p: seq<int>, a: seq<int>, b: seq<int>)
    ensures Less(p + a, p + b) <==> Less(a, b)
  {
    if p == [] {
      assert p + a == a && p + b == b;
    } else {
      assert (p + a)[1..] == p[1..] + a && (p + b)[1..] == p[1..] + b;
      LessAfter(p[1..], a, b);
    }
  }

  lemma {:induction false} LessOnce(a: seq<int>, b: seq<int>)
    ensures !(Less(a, b) && Less(b, a)) && !Less(a, a)
  {
    if a != [] && b != [] {
      LessOnce(a[1..], b[1..]);
    } else if a != [] {
      LessOnce(a[1..], a[1..]);
    }
  }

  lemma {:induction false} LessTotal(a: seq<int>, b: seq<int>)
    ensures a == b || Less(a, b) || Less(b, a)
  {
    if a != [] && b != [] {
      LessTotal(a[1..], b[1..]);
      assert a == [a[0]] + a[1..] && b == [b[0]] + b[1..];
    }
  }

  // ---------------------------------------------------------------- code points

  // The last six bits and the others.
  function Low(c: nat): nat { c % 0x40 }
  function High(c: nat): nat { c / 0x40 }

  lemma Digits(c: nat, d: nat)
    requires c < d
    ensures High(c) < High(d) || (High(c) == High(d) && Low(c) < Low(d))
  {
  }

  lemma Shorter(c: int, d: int)
    requires Scalar(c) && Scalar(d) && c < d && |Encode(c)| != |Encode(d)|
    ensures Below(Encode(c), Encode(d), 0)
  {
  }

  lemma EncodeTwo(c: nat)
    requires 0x80 <= c <= 0x7FF
    ensures Encode(c) == [0xC0 + High(c), 0x80 + Low(c)]
  {
  }

  lemma EncodeThree(c: nat)
    requires 0x800 <= c <= 0xFFFF
    ensures Encode(c) == [0xE0 + High(High(c)), 0x80 + Low(High(c)), 0x80 + Low(c)]
  {
  }

  lemma EncodeFour(c: nat)
    requires 0x1_0000 <= c <= 0x10_FFFF
    ensures Encode(c) == [0xF0 + High(High(High(c))), 0x80 + Low(High(High(c))), 0x80 + Low(High(c)), 0x80 + Low(c)]
  {
    hide Encode;
    Encode4Is(c);
    HigherDigits(c);
  }

  lemma SameTwo(c: nat, d: nat) returns (k: nat)
    requires 0x80 <= c < d <= 0x7FF
    ensures Below(Encode(c), Encode(d), k)
  {
    hide Encode, High, Low;
    EncodeTwo(c);
    EncodeTwo(d);
    Digits(c, d);
    k := if High(c) < High(d) then 0 else 1;
  }

  lemma SameThree(c: nat, d: nat) returns (k: nat)
    requires 0x800 <= c < d <= 0xFFFF
    ensures Below(Encode(c), Encode(d), k)
  {
    hide Encode, High, Low;
    EncodeThree(c);
    EncodeThree(d);
    Digits(c, d);
    if High(c) < High(d) {
      Digits(High(c), High(d));
    }
    k := if High(High(c)) < High(High(d)) then 0 else if High(c) < High(d) then 1 else 2;
  }

  lemma SameFour(c: nat, d: nat) returns (k: nat)
    requires 0x1_0000 <= c < d <= 0x10_FFFF
    ensures Below(Encode(c), Encode(d), k)
  {
    hide Encode, High, Low;
    EncodeFour(c);
    EncodeFour(d);
    Digits(c, d);
    if High(c) < High(d) {
      Digits(High(c), High(d));
      if High(High(c)) < High(High(d)) {
        Digits(High(High(c)), High(High(d)));
      }
    }
    var top := High(High(High(c))) < High(High(High(d)));
    k := if top then 0 else if High(High(c)) < High(High(d)) then 1 else if High(c) < High(d) then 2 else 3;
  }

  lemma CharsOrdered(c: int, d: int) returns (k: nat)
    requires Scalar(c) && Scalar(d) && c < d
    ensures Below(Encode(c), Encode(d), k)
  {
    if |Encode(c)| != |Encode(d)| {
      Shorter(c, d);
      k := 0;
    } else {
      SameLength(c, d);
      if d <= 0x7F {
        k := 0;
      } else if d <= 0x7FF {
        k := SameTwo(c, d);
      } else if d <= 0xFFFF {
        k := SameThree(c, d);
      } else {
        k := SameFour(c, d);
      }
    }
  }

  lemma SameLength(c: int, d: int)
    requires Scalar(c) && Scalar(d) && |Encode(c)| == |Encode(d)|
    ensures (c <= 0x7F <==> d <= 0x7F) && (c <= 0x7FF <==> d <= 0x7FF) && (c <= 0xFFFF <==> d <= 0xFFFF)
  {
  }

  predicate Scalars(x: seq<int>) {
    forall i :: 0 <= i < |x| ==> Scalar(x[i])
  }

  lemma {:induction false} StringsOrdered(x: seq<int>, y: seq<int>)
    requires Scalars(x) && Scalars(y) && Less(x, y)
    ensures Less(EncodeAll(x), EncodeAll(y))
  {
    hide Encode, Scalar;
    EncodeNotEmpty(y[0]);
    if x != [] {
      if x[0] == y[0] {
        StringsOrdered(x[1..], y[1..]);
        LessAfter(Encode(x[0]), EncodeAll(x[1..]), EncodeAll(y[1..]));
      } else {
        var k := CharsOrdered(x[0], y[0]);
        BelowLess(Encode(x[0]), Encode(y[0]), k, EncodeAll(x[1..]), EncodeAll(y[1..]));
      }
    }
  }

  lemma EncodeNotEmpty(c: int)
    requires Scalar(c)
    ensures Encode(c) != []
  {
  }

  /** Comparing the bytes is comparing the code points. */
  lemma OrderIff(x: seq<int>, y: seq<int>)
    requires Scalars(x) && Scalars(y)
    ensures Less(EncodeAll(x), EncodeAll(y)) <==> Less(x, y)
  {
    hide EncodeAll, Less, Scalars;
    LessTotal(x, y);
    if Less(x, y) {
      StringsOrdered(x, y);
    } else if Less(y, x) {
      StringsOrdered(y, x);
    }
    LessOnce(EncodeAll(x), EncodeAll(y));
  }
}
