/**
 * Different texts of one address: letters of either case, leading zeros, a dotted end; and exactly
 * which bracketed texts give which bytes and port.
 */
module NetForms {
  import opened Base
  import opened NetText
  import opened NetAddress
  import opened NetRoundTrip
  import opened NetGrammar

  // ---------------------------------------------------------------- letters of either case

  function Upper(c: char): char {
    if 'a' <= c <= 'z' then (c as int - 'a' as int + 'A' as int) as char else c
  }

  function UpperAll(t: string): string {
    seq(|t|, i requires 0 <= i < |t| => Upper(t[i]))
  }

  lemma UpperDigit(c: char)
    ensures DigitOf(Upper(c)) == DigitOf(c)
    ensures IsDigit(c, false) ==> Upper(c) == c
    ensures IsDigit(Upper(c), false) <==> IsDigit(c, false)
    ensures IsDigit(Upper(c), true) <==> IsDigit(c, true)
  {
  }

  // A sign that is no letter.
  predicate Sign(c: char) { c == ':' || c == '.' || c == '[' || c == ']' }

  lemma UpperSign(c: char, sign: char)
    requires Sign(sign)
    ensures Upper(c) == sign <==> c == sign
  {
  }

  lemma UpperParts(t: string, n: nat)
    requires n <= |t|
    ensures UpperAll(t)[..n] == UpperAll(t[..n]) && UpperAll(t)[n..] == UpperAll(t[n..])
  {
  }

  lemma {:induction false} UpperValue(t: string, hex: bool)
    ensures AllDigits(UpperAll(t), hex) <==> AllDigits(t, hex)
    ensures AllDigits(t, hex) ==> Value(UpperAll(t), hex) == Value(t, hex)
  {
    UpperDigits(t, hex);
    if t != "" {
      var n := |t| - 1;
      UpperValue(t[..n], hex);
      UpperParts(t, n);
      UpperDigit(t[n]);
    }
    hide IsDigit, DigitOf, Upper;
  }

  lemma UpperDigits(t: string, hex: bool)
    ensures AllDigits(UpperAll(t), hex) <==> AllDigits(t, hex)
  {
    forall i | 0 <= i < |t| ensures IsDigit(UpperAll(t)[i], hex) <==> IsDigit(t[i], hex) {
      UpperDigit(t[i]);
    }
    hide IsDigit, Upper;
  }

  lemma UpperGroup(t: string)
    ensures HexGroup(UpperAll(t)) == HexGroup(t)
  {
    UpperValue(t, true);
    hide AllDigits, Value;
  }

  lemma {:induction false} UpperColon(t: string)
    ensures FindColon(UpperAll(t)) == FindColon(t)
  {
    if t != "" {
      UpperSign(t[0], ':');
      UpperParts(t, 1);
      UpperColon(t[1..]);
    }
    hide Upper;
  }

  lemma {:induction false} UpperDouble(t: string)
    ensures FindDouble(UpperAll(t)) == FindDouble(t)
  {
    if t != "" {
      UpperSign(t[0], ':');
      if |t| > 1 { UpperSign(t[1], ':'); }
      UpperParts(t, 1);
      UpperDouble(t[1..]);
    }
    hide Upper;
  }

  lemma {:induction false} UpperBracket(t: string)
    ensures Bracket(UpperAll(t)) == Bracket(t)
  {
    if t != "" {
      UpperSign(t[0], ']');
      UpperParts(t, 1);
      UpperBracket(t[1..]);
    }
    hide Upper;
  }

  lemma {:induction false} UpperRun(t: string)
    ensures DigitRun(UpperAll(t)) == DigitRun(t)
  {
    if t != "" {
      UpperDigit(t[0]);
      UpperParts(t, 1);
      UpperRun(t[1..]);
    }
    hide Upper, IsDigit;
  }

  // What is read stays, what is left is in capitals too.
  function UpperRead(r: Option<Read>): Option<Read> {
    if r.None? then None else Some(Read(r.value.value, UpperAll(r.value.rest)))
  }

  lemma UpperNumber(s: string, max: nat)
    ensures NumberUpTo(UpperAll(s), max) == UpperRead(NumberUpTo(s, max))
  {
    UpperRun(s);
    var n := DigitRun(s);
    UpperParts(s, n);
    UpperValue(s[..n], false);
    hide DigitRun, AllDigits, Value, UpperAll;
  }

  lemma UpperAfter(s: string, c: char)
    requires Sign(c)
    ensures After(UpperAll(s), c) == match After(s, c) case Some(rest) => Some(UpperAll(rest)) case None => None
  {
    if s != "" {
      UpperSign(s[0], c);
      UpperParts(s, 1);
    }
    hide Upper;
  }

  lemma UpperOctet(s: string)
    ensures OctetDot(UpperAll(s)) == UpperRead(OctetDot(s))
  {
    UpperNumber(s, 255);
    if NumberUpTo(s, 255).Some? {
      UpperAfter(NumberUpTo(s, 255).value.rest, '.');
    }
    hide NumberUpTo, After, UpperAll;
  }

  function UpperQuad(q: Option<Quad>): Option<Quad> {
    if q.None? then None else Some(q.value.(rest := UpperAll(q.value.rest)))
  }

  lemma UpperOctets(s: string)
    ensures FourOctets(UpperAll(s)) == UpperQuad(FourOctets(s))
  {
    hide OctetDot, NumberUpTo, UpperAll;
    UpperOctet(s);
    if OctetDot(s).Some? {
      var s1 := OctetDot(s).value.rest;
      UpperOctet(s1);
      if OctetDot(s1).Some? {
        var s2 := OctetDot(s1).value.rest;
        UpperOctet(s2);
        if OctetDot(s2).Some? {
          UpperNumber(OctetDot(s2).value.rest, 255);
        }
      }
    }
  }

  lemma UpperLast(t: string, quad: bool)
    ensures LastField(UpperAll(t), quad) == LastField(t, quad)
  {
    UpperGroup(t);
    UpperOctets(t);
    if FourOctets(t).Some? {
      assert UpperAll(FourOctets(t).value.rest) == "" <==> FourOctets(t).value.rest == "";
    }
    hide HexGroup, FourOctets;
  }

  lemma {:induction false} UpperFields(t: string, quad: bool)
    ensures Fields(UpperAll(t), quad) == Fields(t, quad)
    decreases |t|
  {
    hide HexGroup, LastField, FindColon, Upper;
    UpperColon(t);
    UpperLast(t, quad);
    var p := FindColon(t);
    if p < |t| {
      UpperParts(t, p);
      UpperParts(t, p + 1);
      UpperGroup(t[..p]);
      UpperFields(t[p + 1..], quad);
    }
  }

  lemma UpperSide(t: string, quad: bool)
    ensures FieldsOrNone(UpperAll(t), quad) == FieldsOrNone(t, quad)
  {
    UpperFields(t, quad);
    assert UpperAll(t) == "" <==> t == "";
    hide Fields;
  }

  lemma UpperText6(t: string)
    ensures Text6(UpperAll(t)) == Text6(t)
  {
    hide FieldsOrNone, FindDouble, Fields, Filled;
    UpperDouble(t);
    UpperFields(t, true);
    var p := FindDouble(t);
    if p < |t| {
      UpperParts(t, p);
      UpperParts(t, p + 2);
      UpperSide(t[..p], false);
      UpperSide(t[p + 2..], true);
    }
    hide Upper;
  }

  lemma UpperTails(s: string)
    ensures Tail4(UpperAll(s)) == Tail4(s) && Tail6(UpperAll(s)) == Tail6(s)
  {
    UpperAfter(s, ':');
    assert UpperAll(s) == "" <==> s == "";
    if After(s, ':').Some? {
      var rest := After(s, ':').value;
      UpperNumber(rest, 65535);
      if NumberUpTo(rest, 65535).Some? {
        var r := NumberUpTo(rest, 65535).value.rest;
        assert UpperAll(r) == "" <==> r == "";
      }
    }
    hide NumberUpTo, After, Upper;
  }

  lemma UpperParsed4(s: string)
    ensures Parsed4(UpperAll(s)) == Parsed4(s)
  {
    UpperOctets(s);
    if FourOctets(s).Some? {
      UpperTails(FourOctets(s).value.rest);
    }
    hide FourOctets, Tail4, UpperAll;
  }

  lemma UpperParsed6(s: string)
    ensures Parsed6(UpperAll(s)) == Parsed6(s)
  {
    hide Bracket, Text6, After, Tail6, Upper;
    UpperBracket(s);
    var k := Min(Bracket(s), 127);
    UpperParts(s, k);
    UpperText6(s[..k]);
    UpperAfter(s[k..], ']');
    if After(s[k..], ']').Some? {
      UpperTails(After(s[k..], ']').value);
    }
  }

  lemma UpperParsed(s: string)
    ensures Parsed(UpperAll(s)) == Parsed(s)
  {
    UpperAfter(s, '[');
    UpperParsed4(s);
    if After(s, '[').Some? {
      UpperParsed6(After(s, '[').value);
    }
    hide Parsed4, Parsed6, After, UpperAll;
  }

  /** Texts that differ in the case of letters only give the same address, or both none. */
  lemma CaseIgnored(s: string, t: string)
    requires UpperAll(s) == UpperAll(t)
    ensures Parsed(s) == Parsed(t)
  {
    UpperParsed(s);
    UpperParsed(t);
    hide Parsed, UpperAll;
  }

  // ---------------------------------------------------------------- leading zeros

  lemma {:induction false} ZeroBefore(t: string, hex: bool)
    requires AllDigits(t, hex)
    ensures AllDigits("0" + t, hex) && Value("0" + t, hex) == Value(t, hex)
  {
    if t == "" {
      ZeroAlone(hex);
      assert "0" + t == "0";
    } else {
      var n := |t| - 1;
      ZeroBefore(t[..n], hex);
      ValueSnoc("0" + t[..n], t[n], hex);
      ValueSnoc(t[..n], t[n], hex);
      assert "0" + t[..n] + [t[n]] == "0" + t && t[..n] + [t[n]] == t;
    }
    hide Value, IsDigit, DigitOf, Radix;
  }

  lemma ZeroAlone(hex: bool)
    ensures AllDigits("0", hex) && Value("0", hex) == 0
  {
    ValueSnoc("", '0', hex);
    assert "" + ['0'] == "0";
  }

  /** A group keeps its value when zeros are put before it, up to four digits in all. */
  lemma GroupZero(t: string, v: nat)
    requires GroupText(t, v) && |t| < 4
    ensures GroupText("0" + t, v)
  {
    ZeroBefore(t, true);
    hide AllDigits, Value;
  }

  // ---------------------------------------------------------------- what the brackets enclose

  // A colon and a port with anything behind its digits, or anything but a colon.
  ghost predicate OpenTail(tail: string, port: nat) {
    if tail != "" && tail[0] == ':' then
      exists digits, rest :: tail == ":" + (digits + rest) && Spells(digits, port, 65535) && Ends(rest)
    else port == 0
  }

  // High byte first.
  predicate BytesOf(g: seq<nat>, ip: seq<byte>) {
    |g| == 8 && |ip| == 16 && forall i :: 0 <= i < 8 ==> g[i] == (ip[2 * i] as int) * 256 + ip[2 * i + 1]
  }

  ghost predicate Bracketed(s: string, ip: seq<byte>, port: nat) {
    exists t, tail, g ::
      && s == "[" + (t + ("]" + tail)) && ']' !in t && |t| <= 127
      && Means6(t, g) && BytesOf(g, ip) && OpenTail(tail, port)
  }

  lemma OpenTailIff(tail: string, port: nat)
    ensures OpenTail(tail, port) <==> Tail6(tail) == Some(port)
  {
    if tail != "" && tail[0] == ':' {
      var p := tail[1..];
      assert tail == ":" + p;
      if OpenTail(tail, port) {
        var digits, rest :| tail == ":" + (digits + rest) && Spells(digits, port, 65535) && Ends(rest);
        assert p == digits + rest;
        NumberUpToIs(digits, port, 65535, rest);
      }
      if NumberUpTo(p, 65535).Some? {
        var t := NumberSplits(p, 65535);
        assert tail == ":" + (t + NumberUpTo(p, 65535).value.rest);
      }
    }
    hide NumberUpTo, Spells, Ends;
  }

  lemma ByteParts(high: byte, low: byte, g: nat)
    requires g <= 65535
    ensures g == high * 256 + low <==> high == g / 256 && low == g % 256
  {
  }

  lemma BytesSame(g: seq<nat>, ip: seq<byte>)
    requires |g| == 8 && Groups16(g) && BytesOf(g, ip)
    ensures ip == Bytes6(g)
  {
    forall i | 0 <= i < 16 ensures ip[i] == Bytes6(g)[i] {
      var k := i / 2;
      ByteParts(ip[2 * k], ip[2 * k + 1], g[k]);
    }
  }

  lemma BytesAre(g: seq<nat>)
    requires |g| == 8 && Groups16(g)
    ensures BytesOf(g, Bytes6(g))
  {
    var ip := Bytes6(g);
    forall i | 0 <= i < 8 ensures g[i] == (ip[2 * i] as int) * 256 + ip[2 * i + 1] {
      ByteParts(ip[2 * i], ip[2 * i + 1], g[i]);
    }
  }

  lemma BracketedReads(s: string, ip: seq<byte>, port: nat)
    requires Bracketed(s, ip, port)
    ensures Parsed(s) == Some(NetAddr(NETTYPE_IPV6, ip, port))
  {
    hide Means6, OpenTail, Text6, Tail6, Bytes6, BytesOf, Parsed, Groups16;
    var t, tail, g :|
      && s == "[" + (t + ("]" + tail)) && ']' !in t && |t| <= 127
      && Means6(t, g) && BytesOf(g, ip) && OpenTail(tail, port);
    Text6Iff(t, g);
    OpenTailIff(tail, port);
    BracketReads(t, g, tail, port);
    BytesSame(g, ip);
  }

  lemma ReadsBracketed(s: string)
    requires s != "" && s[0] == '[' && Parsed(s).Some?
    ensures Bracketed(s, Parsed(s).value.ip, Parsed(s).value.port) && Parsed(s).value.kind == NETTYPE_IPV6
  {
    hide Means6, OpenTail, Text6, Tail6, Bytes6, BytesOf, Parsed, Groups16;
    var t, tail := BracketSplits(s);
    var g := Text6(t).value;
    Text6Iff(t, g);
    OpenTailIff(tail, Tail6(tail).value);
    BytesAre(g);
  }

  /** What the bytes and the port of a bracketed text are, for every such text and no other. */
  lemma Accepts6Iff(s: string, ip: seq<byte>, port: nat)
    requires s != "" && s[0] == '['
    ensures Parsed(s) == Some(NetAddr(NETTYPE_IPV6, ip, port)) <==> Bracketed(s, ip, port)
  {
    hide Parsed, Bracketed;
    if Bracketed(s, ip, port) {
      BracketedReads(s, ip, port);
    }
    if Parsed(s).Some? {
      ReadsBracketed(s);
    }
  }

  // ---------------------------------------------------------------- a dotted end

  const FFFF := "ffff"

  lemma FfffGroup()
    ensures GroupText(FFFF, 65535)
  {
    ValueSnoc("", 'f', true);
    ValueSnoc("f", 'f', true);
    ValueSnoc("ff", 'f', true);
    ValueSnoc("fff", 'f', true);
    assert "" + ['f'] == "f" && "f" + ['f'] == "ff" && "ff" + ['f'] == "fff" && "fff" + ['f'] == FFFF;
    hide Value;
  }

  lemma MappedList(quad: string, back: seq<nat>)
    requires DottedGroups(quad, back)
    ensures ListText(FFFF + (":" + quad), true, [65535] + back)
  {
    hide DottedGroups, GroupText;
    FfffGroup();
    var parts, front := [FFFF], [65535];
    assert GroupTexts(parts, front);
    assert Coloned(parts, quad) == FFFF + (":" + Coloned([], quad));
    assert LastText(quad, true, back);
  }

  lemma MappedMeans(quad: string, back: seq<nat>)
    requires DottedGroups(quad, back) && |back| == 2
    ensures Means6("::" + (FFFF + (":" + quad)), [0, 0, 0, 0, 0, 65535, back[0], back[1]])
  {
    hide DottedGroups, ListText;
    MappedList(quad, back);
    var r, g := FFFF + (":" + quad), [65535] + back;
    var full := [0, 0, 0, 0, 0, 65535, back[0], back[1]];
    assert Sides("::" + r, "", r, [], g);
    assert Padded([], g, full);
  }

  lemma DottedIs(a: string, b: string, c: string, d: string, q: Quad)
    requires Spells(a, q.a, 255) && Spells(b, q.b, 255) && Spells(c, q.c, 255) && Spells(d, q.d, 255)
    ensures DottedGroups(Dotted(a, b, c, d, ""), [q.a * 256 + q.b, q.c * 256 + q.d])
    ensures ']' !in Dotted(a, b, c, d, "")
  {
    DigitsOpen(a);
    DigitsOpen(b);
    DigitsOpen(c);
    DigitsOpen(d);
    assert DottedGroups(Dotted(a, b, c, d, ""), [q.a * 256 + q.b, q.c * 256 + q.d]);
    hide AllDigits, Value;
  }

  lemma DigitsOpen(t: string)
    requires AllDigits(t, false)
    ensures ']' !in t
  {
  }

  lemma BracketedIs(t: string, tail: string, g: seq<nat>, ip: seq<byte>, port: nat)
    requires ']' !in t && |t| <= 127 && Means6(t, g) && BytesOf(g, ip) && OpenTail(tail, port)
    ensures Parsed("[" + (t + ("]" + tail))) == Some(NetAddr(NETTYPE_IPV6, ip, port))
  {
    hide Means6, BytesOf, OpenTail, Parsed;
    var s := "[" + (t + ("]" + tail));
    assert Bracketed(s, ip, port);
    Accepts6Iff(s, ip, port);
  }

  lemma MappedGroups(q: Quad) returns (ip: seq<byte>)
    requires q.a <= 255 && q.b <= 255 && q.c <= 255 && q.d <= 255
    ensures BytesOf([0, 0, 0, 0, 0, 65535, q.a * 256 + q.b, q.c * 256 + q.d], ip)
    ensures ip == [0, 0, 0, 0, 0, 0, 0, 0, 0, 0, 255, 255, q.a, q.b, q.c, q.d]
  {
    ip := [0, 0, 0, 0, 0, 0, 0, 0, 0, 0, 255, 255, q.a, q.b, q.c, q.d];
  }

  // "::ffff:" before a text.
  function Mapped(quad: string): (t: string)
    ensures ']' !in quad ==> ']' !in t
    ensures |t| == 7 + |quad|
  {
    "::" + (FFFF + (":" + quad))
  }

  /** "::ffff:" before a dotted address gives its four numbers as the last bytes (section 2.5.5.2 of RFC 4291). */
  lemma MappedBytes(a: string, b: string, c: string, d: string, q: Quad, tail: string, port: nat)
    requires Spells(a, q.a, 255) && Spells(b, q.b, 255) && Spells(c, q.c, 255) && Spells(d, q.d, 255)
    requires |Dotted(a, b, c, d, "")| <= 120 && OpenTail(tail, port)
    ensures Parsed("[" + (Mapped(Dotted(a, b, c, d, "")) + ("]" + tail))) ==
      Some(NetAddr(NETTYPE_IPV6, [0, 0, 0, 0, 0, 0, 0, 0, 0, 0, 255, 255, q.a, q.b, q.c, q.d], port))
  {
    assert q.a <= 255 && q.b <= 255 && q.c <= 255 && q.d <= 255;
    hide Spells, Dotted, OpenTail, Means6, Parsed, DottedGroups, BytesOf;
    var quad := Dotted(a, b, c, d, "");
    DottedIs(a, b, c, d, q);
    MappedMeans(quad, [q.a * 256 + q.b, q.c * 256 + q.d]);
    var ip := MappedGroups(q);
    BracketedIs(Mapped(quad), tail, [0, 0, 0, 0, 0, 65535, q.a * 256 + q.b, q.c * 256 + q.d], ip, port);
  }
}
