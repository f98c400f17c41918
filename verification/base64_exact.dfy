/**
 * The alphabet of base64 and the faults of a text that is not base64: str_base64_decode of
 * src/base/str.cpp.
 */
module Base64Exact {
  import opened Base
  import opened Base64

  // ---------------------------------------------------------------- the alphabet

  // Table 1 of RFC 4648, in rows of eight.
  function Row(r: int): (s: string)
    ensures |s| == 8
  {
    match r
    case 0 => "ABCDEFGH"
    case 1 => "IJKLMNOP"
    case 2 => "QRSTUVWX"
    case 3 => "YZabcdef"
    case 4 => "ghijklmn"
    case 5 => "opqrstuv"
    case 6 => "wxyz0123"
    case _ => "456789+/"
  }

  function Letter(v: int): char
    requires 0 <= v < 64
  {
    Row(v / 8)[v % 8]
  }

  lemma RowIs(r: int, i: nat)
    requires 0 <= r < 8 && i < 8
    ensures Row(r)[i] == Digit(8 * r + i)
  {
  }

  /** The digits are those of the table, and a character has a value exactly if it is one of them. */
  lemma Alphabet(v: int, c: char)
    requires 0 <= v < 64
    ensures Digit(v) == Letter(v)
    ensures DigitValue(c) == v <==> c == Letter(v)
  {
    RowIs(v / 8, v % 8);
    if DigitValue(c) == v {
      DigitOfValue(c);
    }
    hide Row;
  }

  lemma GroupOfFoo()
    ensures EncodeGroup(0x66, 0x6F, 0x6F) == "Zm9v"
  {
    hide DigitValue;
  }

  lemma GroupOfBar()
    ensures EncodeGroup(0x62, 0x61, 0x72) == "YmFy"
  {
    hide DigitValue;
  }

  lemma EndsOfFoobar()
    ensures Encode([0x62, 0x61]) == "YmE=" && Encode([0x62]) == "Yg==" && Encode([]) == ""
  {
    hide DigitValue;
  }

  /** Section 10 of RFC 4648: "foobar" and its beginnings. */
  lemma Foobar()
    ensures Encode([0x66, 0x6F, 0x6F, 0x62, 0x61, 0x72]) == "Zm9vYmFy"
    ensures Encode([0x66, 0x6F, 0x6F, 0x62, 0x61]) == "Zm9vYmE="
    ensures Encode([0x66, 0x6F, 0x6F, 0x62]) == "Zm9vYg=="
  {
    hide Encode, EncodeGroup;
    GroupOfFoo();
    GroupOfBar();
    EndsOfFoobar();
    var foo, bar := [0x66, 0x6F, 0x6F], [0x62, 0x61, 0x72];
    EncodeFront(bar, []);
    assert bar + [] == bar;
    EncodeFront(foo, bar);
    EncodeFront(foo, [0x62, 0x61]);
    EncodeFront(foo, [0x62]);
    assert foo + bar == [0x66, 0x6F, 0x6F, 0x62, 0x61, 0x72];
    assert foo + [0x62, 0x61] == [0x66, 0x6F, 0x6F, 0x62, 0x61];
    assert foo + [0x62] == [0x66, 0x6F, 0x6F, 0x62];
  }

  // ---------------------------------------------------------------- what is wrong with a text

  // Without up to two padding characters at its end.
  function Unpadded(s: string): (t: string) {
    var n := |s|;
    if n < 2 || s[n - 1] != '=' then s else if s[n - 2] == '=' then s[..n - 2] else s[..n - 1]
  }

  predicate Known(s: string) {
    forall i :: 0 <= i < |s| ==> DigitValue(s[i]) != -1
  }

  lemma DigitsFault(c0: char, c1: char, c2: char, c3: char, n: int)
    requires 1 <= n <= 3
    ensures var d := DecodeDigits(c0, c1, c2, c3, n);
      && (d == Failed(-1) <==> !Known([c0, c1, c2, c3]))
      && (n == 3 ==> d != Failed(-2))
      && (d.Failed? ==> d == Failed(-1) || d == Failed(-2))
  {
    KnownFour(c0, c1, c2, c3);
    hide DigitValue, Byte0, Byte1, Byte2;
  }

  lemma KnownFour(c0: char, c1: char, c2: char, c3: char)
    ensures Known([c0, c1, c2, c3]) <==>
      DigitValue(c0) != -1 && DigitValue(c1) != -1 && DigitValue(c2) != -1 && DigitValue(c3) != -1
  {
    var s := [c0, c1, c2, c3];
    assert s[0] == c0 && s[1] == c1 && s[2] == c2 && s[3] == c3;
    hide DigitValue;
  }

  lemma GroupFault(s: string)
    requires |s| == 4
    ensures var d := DecodeGroup(s[0], s[1], s[2], s[3], true);
      && (d == Failed(-1) <==> !Known(Unpadded(s)))
      && (d.Failed? ==> d == Failed(-1) || d == Failed(-2))
  {
    hide DecodeDigits, DigitValue;
    PadKnown();
    if s[3] == '=' && s[2] == '=' {
      DigitsFault(s[0], s[1], 'A', 'A', 1);
      KnownFour(s[0], s[1], 'A', 'A');
      KnownTwo(s[0], s[1]);
      assert Unpadded(s) == [s[0], s[1]];
    } else if s[3] == '=' {
      DigitsFault(s[0], s[1], s[2], 'A', 2);
      KnownFour(s[0], s[1], s[2], 'A');
      KnownThree(s[0], s[1], s[2]);
      assert Unpadded(s) == [s[0], s[1], s[2]];
    } else {
      DigitsFault(s[0], s[1], s[2], s[3], 3);
      assert s == [s[0], s[1], s[2], s[3]];
    }
  }

  lemma PadKnown()
    ensures DigitValue('A') == 0
  {
  }

  lemma KnownTwo(c0: char, c1: char)
    ensures Known([c0, c1]) <==> DigitValue(c0) != -1 && DigitValue(c1) != -1
  {
    var s := [c0, c1];
    assert s[0] == c0 && s[1] == c1;
    hide DigitValue;
  }

  lemma KnownThree(c0: char, c1: char, c2: char)
    ensures Known([c0, c1, c2]) <==> DigitValue(c0) != -1 && DigitValue(c1) != -1 && DigitValue(c2) != -1
  {
    var s := [c0, c1, c2];
    assert s[0] == c0 && s[1] == c1 && s[2] == c2;
    hide DigitValue;
  }

  lemma KnownSum(s: string, t: string)
    ensures Known(s + t) <==> Known(s) && Known(t)
  {
    if Known(s + t) {
      forall i | 0 <= i < |s| ensures DigitValue(s[i]) != -1 {
        assert (s + t)[i] == s[i];
      }
      forall i | 0 <= i < |t| ensures DigitValue(t[i]) != -1 {
        assert (s + t)[|s| + i] == t[i];
      }
    }
    hide DigitValue;
  }

  lemma UnpaddedRest(s: string)
    requires |s| > 4 && |s| % 4 == 0
    ensures Unpadded(s) == s[..4] + Unpadded(s[4..])
  {
  }

  lemma {:induction false} GroupsFault(s: string)
    requires |s| % 4 == 0
    ensures DecodeGroups(s) == Failed(-1) <==> !Known(Unpadded(s))
    ensures DecodeGroups(s).Failed? ==> DecodeGroups(s) == Failed(-1) || DecodeGroups(s) == Failed(-2)
    decreases |s|
  {
    hide DecodeGroup, Known, Unpadded;
    if s == "" {
      NothingUnknown();
    } else if |s| == 4 {
      GroupFault(s);
      assert s[4..] == "";
    } else {
      FullGroupFault(s[0], s[1], s[2], s[3]);
      GroupsFault(s[4..]);
      UnpaddedRest(s);
      assert s[..4] == [s[0], s[1], s[2], s[3]];
      KnownSum(s[..4], Unpadded(s[4..]));
    }
  }

  lemma NothingUnknown()
    ensures Known(Unpadded(""))
  {
  }

  lemma FullGroupFault(c0: char, c1: char, c2: char, c3: char)
    ensures var d := DecodeGroup(c0, c1, c2, c3, false);
      (d == Failed(-1) <==> !Known([c0, c1, c2, c3])) && (d.Failed? ==> d == Failed(-1))
  {
    DigitsFault(c0, c1, c2, c3, 3);
    hide DecodeDigits, Known;
  }

  /**
   * Every error code says what is wrong: -3 a length that is no multiple of four; else -2 too little
   * room; else -1 a character outside the alphabet before the padding; else -2 a text that is not
   * the encoding of any bytes.
   */
  lemma FaultIs(s: string, size: int)
    ensures Decode(s, size) == Failed(-3) <==> |s| % 4 != 0
    ensures Decode(s, size) == Failed(-1) <==>
      |s| % 4 == 0 && |s| / 4 * 3 <= size && !Known(Unpadded(s))
    ensures Decode(s, size) == Failed(-2) <==>
      && |s| % 4 == 0
      && (|s| / 4 * 3 > size || (Known(Unpadded(s)) && forall data: seq<byte> :: Encode(data) != s))
  {
    hide DecodeGroups, Known, Unpadded;
    if |s| % 4 == 0 && |s| / 4 * 3 <= size {
      GroupsFault(s);
      if DecodeGroups(s).Ok? {
        EncodeDecode(s);
      } else {
        forall data: seq<byte> ensures Encode(data) != s {
          DecodeAcceptsExactly(s, data, size);
        }
      }
    }
    hide Encode;
  }
}
