/**
 * Numerals as str_format prints them, and the text grammar of addresses that
 * net_addr_from_str of src/base/net.cpp accepts.
 */
module NetText {
  import opened Base

  // ---------------------------------------------------------------- numerals

  function Radix(hex: bool): int { if hex then 16 else 10 }

  function Shifted(v: nat, hex: bool): nat { if hex then v / 16 else v / 10 }

  function LowDigit(v: nat, hex: bool): nat { if hex then v % 16 else v % 10 }

  function DigitChar(d: nat): char
    requires d < 16
  {
    if d < 10 then ('0' as int + d) as char else ('a' as int + d - 10) as char
  }

  // The value of a digit, -1 for anything else.
  function DigitOf(c: char): int {
    if '0' <= c <= '9' then c as int - '0' as int
    else if 'a' <= c <= 'f' then c as int - 'a' as int + 10
    else if 'A' <= c <= 'F' then c as int - 'A' as int + 10
    else -1
  }

  predicate IsDigit(c: char, hex: bool) {
    0 <= DigitOf(c) < Radix(hex)
  }

  predicate AllDigits(t: string, hex: bool) {
    forall i :: 0 <= i < |t| ==> IsDigit(t[i], hex)
  }

  /** What %d and %x print for a number that is not negative. */
  function Numeral(v: nat, hex: bool): string
    decreases v
  {
    if v < Radix(hex) then [DigitChar(v)]
    else Numeral(Shifted(v, hex), hex) + [DigitChar(LowDigit(v, hex))]
  }

  function Value(t: string, hex: bool): nat
    requires AllDigits(t, hex)
  {
    if t == "" then 0 else Value(t[..|t| - 1], hex) * Radix(hex) + DigitOf(t[|t| - 1])
  }

  lemma DigitCharReads(d: nat, hex: bool)
    requires d < Radix(hex)
    ensures IsDigit(DigitChar(d), hex) && DigitOf(DigitChar(d)) == d
  {
  }

  lemma Halves(v: nat, hex: bool)
    ensures LowDigit(v, hex) < Radix(hex) && v == Shifted(v, hex) * Radix(hex) + LowDigit(v, hex)
  {
  }

  lemma ValueSnoc(t: string, c: char, hex: bool)
    requires AllDigits(t, hex) && IsDigit(c, hex)
    ensures AllDigits(t + [c], hex) && Value(t + [c], hex) == Value(t, hex) * Radix(hex) + DigitOf(c)
  {
    assert (t + [c])[..|t|] == t;
  }

  /** Reading a printed numeral gives the number back. */
  lemma {:induction false} NumeralReads(v: nat, hex: bool)
    ensures Numeral(v, hex) != "" && AllDigits(Numeral(v, hex), hex) && Value(Numeral(v, hex), hex) == v
    decreases v
  {
    hide Shifted, LowDigit, DigitChar, DigitOf;
    if v < Radix(hex) {
      DigitCharReads(v, hex);
      ValueSnoc("", DigitChar(v), hex);
      assert "" + [DigitChar(v)] == [DigitChar(v)];
    } else {
      Halves(v, hex);
      Smaller(v, hex);
      var up, low := Shifted(v, hex), LowDigit(v, hex);
      NumeralReads(up, hex);
      DigitCharReads(low, hex);
      ValueSnoc(Numeral(up, hex), DigitChar(low), hex);
    }
  }

  lemma Smaller(v: nat, hex: bool)
    requires v >= Radix(hex)
    ensures 0 < Shifted(v, hex) < v
  {
  }

  /** No numeral but "0" starts with a zero, and letters are lower-case. */
  lemma {:induction false} NumeralCanonical(v: nat, hex: bool)
    ensures v > 0 ==> Numeral(v, hex)[0] != '0'
    ensures forall i :: 0 <= i < |Numeral(v, hex)| ==> !('A' <= Numeral(v, hex)[i] <= 'F')
    decreases v
  {
    hide Shifted, LowDigit;
    if v >= Radix(hex) {
      Halves(v, hex);
      Smaller(v, hex);
      NumeralReads(Shifted(v, hex), hex);
      NumeralCanonical(Shifted(v, hex), hex);
    }
  }

  lemma {:induction false} NumeralShort(v: nat, hex: bool, n: nat)
    requires v < Power(Radix(hex), n) && n > 0
    ensures |Numeral(v, hex)| <= n
    decreases v
  {
    if v >= Radix(hex) {
      PowerOne(hex);
      ShiftedPower(v, hex, n);
      Smaller(v, hex);
      NumeralShort(Shifted(v, hex), hex, n - 1);
    }
  }

  lemma PowerOne(hex: bool)
    ensures Power(Radix(hex), 1) == Radix(hex)
  {
    assert Power(Radix(hex), 0) == 1;
  }

  lemma ShiftedPower(v: nat, hex: bool, n: nat)
    requires v < Power(Radix(hex), n) && n > 0
    ensures Shifted(v, hex) < Power(Radix(hex), n - 1)
  {
    if hex {
      assert v < 16 * Power(Radix(hex), n - 1);
    } else {
      assert v < 10 * Power(Radix(hex), n - 1);
    }
  }

  lemma ShortNumerals(v: nat)
    ensures v <= 255 ==> |Numeral(v, false)| <= 3
    ensures v <= 65535 ==> |Numeral(v, false)| <= 5 && |Numeral(v, true)| <= 4
  {
    assert Power(Radix(false), 3) == 1000;
    assert Power(Radix(false), 5) == 100000;
    assert Power(Radix(true), 4) == 65536;
    if v <= 255 { NumeralShort(v, false, 3); }
    if v <= 65535 {
      NumeralShort(v, false, 5);
      NumeralShort(v, true, 4);
    }
  }

  // ---------------------------------------------------------------- reading decimal numbers

  // A value read, and the text after it.
  datatype Read = Read(value: nat, rest: string)

  function DigitRun(s: string): (n: nat)
    ensures n <= |s| && AllDigits(s[..n], false) && (n < |s| ==> !IsDigit(s[n], false))
  {
    if s == "" || !IsDigit(s[0], false) then 0 else
      var n := 1 + DigitRun(s[1..]);
      assert forall i :: 1 <= i < n ==> s[i] == s[1..][i - 1];
      n
  }

  /** All leading digits, at least one. */
  function Number(s: string): Option<Read> {
    var n := DigitRun(s);
    if n == 0 then None else Some(Read(Value(s[..n], false), s[n..]))
  }

  function NumberUpTo(s: string, max: nat): Option<Read> {
    var r := Number(s);
    if r.Some? && r.value.value > max then None else r
  }

  // No digit follows.
  predicate Ends(rest: string) {
    rest == "" || !IsDigit(rest[0], false)
  }

  lemma {:induction false} DigitRunIs(t: string, rest: string)
    requires AllDigits(t, false) && Ends(rest)
    ensures DigitRun(t + rest) == |t|
  {
    if t == "" {
      assert t + rest == rest;
    } else {
      assert (t + rest)[1..] == t[1..] + rest;
      DigitRunIs(t[1..], rest);
    }
  }

  lemma NumberIs(t: string, rest: string)
    requires t != "" && AllDigits(t, false) && Ends(rest)
    ensures Number(t + rest) == Some(Read(Value(t, false), rest))
  {
    DigitRunIs(t, rest);
    assert (t + rest)[..|t|] == t && (t + rest)[|t|..] == rest;
  }

  // ---------------------------------------------------------------- dotted addresses

  // The text after a given character.
  function After(s: string, c: char): Option<string> {
    if s != "" && s[0] == c then Some(s[1..]) else None
  }

  function OctetDot(s: string): Option<Read> {
    match NumberUpTo(s, 255)
    case None => None
    case Some(r) => match After(r.rest, '.')
      case None => None
      case Some(rest) => Some(Read(r.value, rest))
  }

  datatype Quad = Quad(a: nat, b: nat, c: nat, d: nat, rest: string)

  /** Four numbers up to 255 with dots between. */
  function FourOctets(s: string): Option<Quad> {
    match OctetDot(s)
    case None => None
    case Some(a) => match OctetDot(a.rest)
      case None => None
      case Some(b) => match OctetDot(b.rest)
        case None => None
        case Some(c) => match NumberUpTo(c.rest, 255)
          case None => None
          case Some(d) => Some(Quad(a.value, b.value, c.value, d.value, d.rest))
  }

  // A digit string for a number up to max.
  predicate Spells(t: string, v: nat, max: nat) {
    t != "" && AllDigits(t, false) && Value(t, false) == v <= max
  }

  lemma NumberUpToIs(t: string, v: nat, max: nat, rest: string)
    requires Spells(t, v, max) && Ends(rest)
    ensures NumberUpTo(t + rest, max) == Some(Read(v, rest))
  {
    NumberIs(t, rest);
    hide Number;
  }

  lemma OctetDotIs(t: string, v: nat, rest: string)
    requires Spells(t, v, 255)
    ensures OctetDot(t + ("." + rest)) == Some(Read(v, rest))
  {
    NumberIs(t, "." + rest);
    assert ("." + rest)[1..] == rest;
  }

  function Dotted(a: string, b: string, c: string, d: string, rest: string): string {
    a + ("." + (b + ("." + (c + ("." + (d + rest))))))
  }

  lemma FourOctetsIs(a: string, b: string, c: string, d: string, q: Quad)
    requires Spells(a, q.a, 255) && Spells(b, q.b, 255) && Spells(c, q.c, 255) && Spells(d, q.d, 255)
    requires Ends(q.rest)
    ensures FourOctets(Dotted(a, b, c, d, q.rest)) == Some(q)
  {
    hide OctetDot, Number, Spells, Ends, AllDigits, NumberUpTo;
    var s3 := d + q.rest;
    var s2 := c + ("." + s3);
    var s1 := b + ("." + s2);
    OctetDotIs(a, q.a, s1);
    OctetDotIs(b, q.b, s2);
    OctetDotIs(c, q.c, s3);
    NumberUpToIs(d, q.d, 255, q.rest);
  }

  // Where a number up to max was read.
  lemma NumberSplits(s: string, max: nat) returns (t: string)
    requires NumberUpTo(s, max).Some?
    ensures var r := NumberUpTo(s, max).value; s == t + r.rest && Spells(t, r.value, max) && Ends(r.rest)
  {
    t := s[..DigitRun(s)];
  }

  lemma OctetDotSplits(s: string) returns (t: string)
    requires OctetDot(s).Some?
    ensures var r := OctetDot(s).value; s == t + ("." + r.rest) && Spells(t, r.value, 255)
  {
    hide Number, Spells;
    t := NumberSplits(s, 255);
    var r := NumberUpTo(s, 255).value.rest;
    assert r == "." + r[1..];
  }

  lemma FourOctetsSplits(s: string) returns (a: string, b: string, c: string, d: string)
    requires FourOctets(s).Some?
    ensures var q := FourOctets(s).value;
      && s == Dotted(a, b, c, d, q.rest) && Ends(q.rest)
      && Spells(a, q.a, 255) && Spells(b, q.b, 255) && Spells(c, q.c, 255) && Spells(d, q.d, 255)
  {
    hide OctetDot, NumberUpTo, Spells, Ends;
    a := OctetDotSplits(s);
    var s1 := OctetDot(s).value.rest;
    b := OctetDotSplits(s1);
    var s2 := OctetDot(s1).value.rest;
    c := OctetDotSplits(s2);
    var s3 := OctetDot(s2).value.rest;
    d := NumberSplits(s3, 255);
  }

  // ---------------------------------------------------------------- section 2.2 of RFC 4291

  function FindColon(t: string): (p: nat)
    ensures p <= |t| && (p < |t| ==> t[p] == ':')
  {
    if t == "" || t[0] == ':' then 0 else 1 + FindColon(t[1..])
  }

  // The leftmost "::", or the length.
  function FindDouble(t: string): (p: nat)
    ensures p <= |t| && (p < |t| ==> p + 1 < |t| && t[p] == t[p + 1] == ':')
  {
    if t == "" then 0
    else if |t| > 1 && t[0] == t[1] == ':' then 0
    else 1 + FindDouble(t[1..])
  }

  function HexGroup(t: string): Option<nat> {
    if 1 <= |t| <= 4 && AllDigits(t, true) then Some(Value(t, true)) else None
  }

  // The last field: 16 bits, or the low 32 bits as a dotted address.
  function LastField(t: string, quad: bool): Option<seq<nat>> {
    match HexGroup(t)
    case Some(v) => Some([v])
    case None => match FourOctets(t)
      case Some(q) => if quad && q.rest == "" then Some([Pair(q.a, q.b), Pair(q.c, q.d)]) else None
      case None => None
  }

  // Two bytes as one group.
  function Pair(high: nat, low: nat): nat { high * 256 + low }

  /** Groups separated by single colons; with `quad`, a dotted address may stand for the last two. */
  function Fields(t: string, quad: bool): Option<seq<nat>>
    decreases |t|
  {
    var p := FindColon(t);
    if p == |t| then LastField(t, quad)
    else match HexGroup(t[..p])
      case None => None
      case Some(v) => match Fields(t[p + 1..], quad)
        case None => None
        case Some(more) => Some([v] + more)
  }

  function FieldsOrNone(t: string, quad: bool): Option<seq<nat>> {
    if t == "" then Some([]) else Fields(t, quad)
  }

  function ZeroGroups(n: nat): seq<nat> { seq(n, _ => 0) }

  /** The eight groups that a text stands for; "::" stands for one or more zero groups. */
  function Text6(t: string): Option<seq<nat>> {
    var p := FindDouble(t);
    if p == |t| then
      match Fields(t, true)
      case Some(g) => if |g| == 8 then Some(g) else None
      case None => None
    else Filled(FieldsOrNone(t[..p], false), FieldsOrNone(t[p + 2..], true))
  }

  // Zero groups between the left and the right ones, at least one.
  function Filled(left: Option<seq<nat>>, right: Option<seq<nat>>): Option<seq<nat>> {
    if left.None? || right.None? || |left.value| + |right.value| > 7 then None
    else Some(left.value + ZeroGroups(8 - |left.value| - |right.value|) + right.value)
  }

  // ---------------------------------------------------------------- printed groups

  predicate Groups16(g: seq<nat>) {
    forall i :: 0 <= i < |g| ==> g[i] <= 65535
  }

  /** The groups in hexadecimal, colons between. */
  function Joined(g: seq<nat>): string {
    if g == [] then "" else if |g| == 1 then Numeral(g[0], true)
    else Numeral(g[0], true) + (":" + Joined(g[1..]))
  }

  predicate Plain(t: string) {
    forall i :: 0 <= i < |t| ==> t[i] != ':'
  }

  lemma HexPlain(v: nat)
    ensures Plain(Numeral(v, true)) && Numeral(v, true) != ""
  {
    NumeralReads(v, true);
    hide Value;
  }

  lemma HexGroupIs(v: nat)
    requires v <= 65535
    ensures HexGroup(Numeral(v, true)) == Some(v)
  {
    NumeralReads(v, true);
    ShortNumerals(v);
    hide Value, Numeral, AllDigits;
  }

  lemma {:induction false} FindColonIs(t: string, rest: string)
    requires Plain(t)
    ensures FindColon(t + (":" + rest)) == |t| && FindColon(t) == |t|
  {
    if t == "" {
      assert t + (":" + rest) == ":" + rest;
    } else {
      assert (t + (":" + rest))[1..] == t[1..] + (":" + rest);
      FindColonIs(t[1..], rest);
    }
  }

  lemma {:induction false} FieldsJoined(g: seq<nat>, quad: bool)
    requires g != [] && Groups16(g)
    ensures Fields(Joined(g), quad) == Some(g)
  {
    hide FindColon, HexGroup, Numeral;
    var t := Numeral(g[0], true);
    HexPlain(g[0]);
    HexGroupIs(g[0]);
    if |g| == 1 {
      FindColonIs(t, "");
      assert g == [g[0]];
    } else {
      var rest := Joined(g[1..]);
      FieldsJoined(g[1..], quad);
      FindColonIs(t, rest);
      FieldsCons(t, rest, quad);
      assert g == [g[0]] + g[1..];
    }
  }

  lemma FieldsCons(t: string, rest: string, quad: bool)
    requires FindColon(t + (":" + rest)) == |t| && HexGroup(t).Some? && Fields(rest, quad).Some?
    ensures Fields(t + (":" + rest), quad) == Some([HexGroup(t).value] + Fields(rest, quad).value)
  {
    var s := t + (":" + rest);
    assert s[..|t|] == t && s[|t| + 1..] == rest;
    hide FindColon, HexGroup, LastField;
  }

  lemma {:induction false} DoubleAfterPlain(t: string, rest: string)
    requires Plain(t)
    ensures FindDouble(t + rest) == |t| + FindDouble(rest)
  {
    if t == "" {
      assert t + rest == rest;
    } else {
      assert (t + rest)[1..] == t[1..] + rest;
      DoubleAfterPlain(t[1..], rest);
    }
  }

  lemma JoinedStarts(g: seq<nat>)
    requires g != []
    ensures Joined(g) != "" && Joined(g)[0] != ':'
  {
    HexPlain(g[0]);
  }

  // The first "::" is not within printed groups.
  lemma {:induction false} DoubleAfterJoined(g: seq<nat>, rest: string)
    requires rest == "" || (|rest| > 1 && rest[0] == rest[1] == ':')
    ensures FindDouble(Joined(g) + rest) == |Joined(g)|
  {
    hide Numeral;
    if g == [] {
      assert Joined(g) + rest == rest;
    } else if |g| == 1 {
      HexPlain(g[0]);
      DoubleAfterPlain(Numeral(g[0], true), rest);
    } else {
      var more := Joined(g[1..]);
      HexPlain(g[0]);
      JoinedStarts(g[1..]);
      DoubleAfterJoined(g[1..], rest);
      DoubleAfterColon(Numeral(g[0], true), more, rest);
    }
  }

  lemma DoubleAfterColon(t: string, more: string, rest: string)
    requires Plain(t) && more != "" && more[0] != ':' && FindDouble(more + rest) == |more|
    ensures FindDouble(t + (":" + more) + rest) == |t + (":" + more)|
  {
    var tail := ":" + (more + rest);
    assert t + (":" + more) + rest == t + tail;
    assert tail[1..] == more + rest;
    DoubleAfterPlain(t, tail);
  }

  lemma Text6Plain(g: seq<nat>)
    requires |g| == 8 && Groups16(g)
    ensures Text6(Joined(g)) == Some(g)
  {
    DoubleAfterJoined(g, "");
    assert Joined(g) + "" == Joined(g);
    FieldsJoined(g, true);
    hide FindDouble, Fields, Joined;
  }

  /** A printed address with a compressed run of zero groups reads back as all eight groups. */
  lemma Text6Compressed(left: seq<nat>, right: seq<nat>)
    requires |left| + |right| <= 7 && Groups16(left) && Groups16(right)
    ensures Text6(Joined(left) + ("::" + Joined(right))) ==
      Some(left + ZeroGroups(8 - |left| - |right|) + right)
  {
    hide Joined, Text6, FindDouble, FieldsOrNone, ZeroGroups, Groups16;
    var l, r := Joined(left), Joined(right);
    DoubleAfterJoined(left, "::" + r);
    JoinedOrNone(left, false);
    JoinedOrNone(right, true);
    Text6Split(l, r);
  }

  lemma Text6Split(l: string, r: string)
    requires FindDouble(l + ("::" + r)) == |l|
    ensures Text6(l + ("::" + r)) == Filled(FieldsOrNone(l, false), FieldsOrNone(r, true))
  {
    hide FindDouble, Fields, FieldsOrNone, Filled;
    var t := l + ("::" + r);
    assert t[..|l|] == l;
    assert t[|l| + 2..] == r;
  }

  lemma JoinedOrNone(g: seq<nat>, quad: bool)
    requires Groups16(g)
    ensures FieldsOrNone(Joined(g), quad) == Some(g)
  {
    if g != [] {
      JoinedStarts(g);
      FieldsJoined(g, quad);
    }
    hide Fields;
  }

  lemma {:induction false} JoinedShort(g: seq<nat>)
    requires Groups16(g)
    ensures |Joined(g)| <= if g == [] then 0 else 5 * |g| - 1
  {
    if g != [] {
      ShortNumerals(g[0]);
      JoinedShort(g[1..]);
    }
    hide Numeral;
  }

  // Hexadecimal digits and colons only.
  predicate AddressChars(t: string) {
    forall i :: 0 <= i < |t| ==> t[i] == ':' || IsDigit(t[i], true)
  }

  lemma {:induction false} JoinedChars(g: seq<nat>)
    ensures AddressChars(Joined(g))
  {
    if g != [] {
      NumeralReads(g[0], true);
      JoinedChars(g[1..]);
    }
    hide Numeral, Value, IsDigit;
  }
}
