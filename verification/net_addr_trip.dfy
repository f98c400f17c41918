/**
 * What the address printer and the parser of src/base/net.cpp mean to each other: printed
 * addresses fit their buffer and read back, and exactly which texts are accepted.
 */
module NetRoundTrip {
  import opened Base
  import opened NetText
  import opened NetAddress

  // ---------------------------------------------------------------- printed parts

  lemma NumeralSpells(v: nat, max: nat)
    requires v <= max
    ensures Spells(Numeral(v, false), v, max)
  {
    NumeralReads(v, false);
  }

  lemma PortTail(port: int)
    requires port <= 65535
    ensures var p := if port >= 0 then port else 0;
      Tail4(PortText(port)) == Some(p) && Tail6(PortText(port)) == Some(p)
  {
    if port >= 0 {
      var t := Numeral(port, false);
      NumeralSpells(port, 65535);
      NumberUpToIs(t, port, 65535, "");
      assert t + "" == t;
      assert (":" + t)[1..] == t;
    }
    hide NumberUpTo, Numeral;
  }

  lemma PortShort(port: int)
    requires port <= 65535
    ensures |PortText(port)| <= 6
  {
    if port >= 0 {
      ShortNumerals(port);
    }
    hide Numeral;
  }

  // ---------------------------------------------------------------- dotted addresses

  lemma DottedReads(addr: NetAddr, addPort: bool)
    requires ValidAddr(addr)
    ensures Parsed4(Form4(addr, addPort)) ==
      Some(NetAddr(NETTYPE_IPV4, addr.ip[..4] + seq(12, _ => 0), if addPort then addr.port else 0))
  {
    hide Numeral, FourOctets, Tail4, PortText, Dotted, Spells, Ends;
    var port := if addPort then addr.port else -1;
    var q := Quad(addr.ip[0], addr.ip[1], addr.ip[2], addr.ip[3], PortText(port));
    NumeralSpells(q.a, 255);
    NumeralSpells(q.b, 255);
    NumeralSpells(q.c, 255);
    NumeralSpells(q.d, 255);
    PortEnds(port);
    PortTail(port);
    FourOctetsIs(Numeral(q.a, false), Numeral(q.b, false), Numeral(q.c, false), Numeral(q.d, false), q);
    assert Bytes4(q) == addr.ip[..4] + seq(12, _ => 0);
  }

  lemma PortEnds(port: int)
    ensures Ends(PortText(port))
  {
    hide Numeral;
  }

  lemma DottedStarts(addr: NetAddr, addPort: bool)
    requires ValidAddr(addr)
    ensures After(Form4(addr, addPort), '[') == None
  {
    NumeralReads(addr.ip[0], false);
    hide Numeral, Value, PortText;
  }

  lemma DottedShort(addr: NetAddr, addPort: bool)
    requires ValidAddr(addr)
    ensures |Form4(addr, addPort)| <= 21
  {
    ShortNumerals(addr.ip[0]);
    ShortNumerals(addr.ip[1]);
    ShortNumerals(addr.ip[2]);
    ShortNumerals(addr.ip[3]);
    PortShort(if addPort then addr.port else -1);
    hide Numeral, PortText;
  }

  // ---------------------------------------------------------------- bracketed addresses

  lemma ZerosAre(ip: seq<nat>, start: int, len: int)
    requires ZeroRun(ip, start, len)
    ensures ip[..start] + ZeroGroups(len) + ip[start + len..] == ip
  {
  }

  /** The groups between the brackets read back, compressed or not. */
  lemma BodyReads(ip: seq<nat>, start: int, len: nat)
    requires |ip| == 8 && Groups16(ip) && Compressed(ip, start, len)
    ensures len > 0 ==> 0 <= start && start + len <= |ip|
    ensures Text6(Body(ip, start, len, |ip|)) == Some(ip)
  {
    hide Text6, Joined, ZeroGroups;
    CompressedBounds(ip, start, len);
    if len == 0 {
      assert ip[..8] == ip;
      Text6Plain(ip);
    } else {
      var left, right := ip[..start], ip[start + len..];
      Text6Compressed(left, right);
      ZerosAre(ip, start, len);
      BodySplit(ip, start, len);
    }
  }

  lemma BodySplit(ip: seq<nat>, start: int, len: nat)
    requires len > 0 && 0 <= start && start + len <= |ip|
    ensures Body(ip, start, len, |ip|) == Joined(ip[..start]) + ("::" + Joined(ip[start + len..]))
  {
    assert ip[start + len..|ip|] == ip[start + len..];
    if start + len == |ip| {
      JoinedNone();
    }
    hide Joined;
  }

  lemma BodyShape(ip: seq<nat>, start: int, len: nat)
    requires |ip| == 8 && Groups16(ip) && (len > 0 ==> 0 <= start && start + len <= |ip|)
    ensures AddressChars(Body(ip, start, len, |ip|)) && |Body(ip, start, len, |ip|)| <= 39
  {
    hide Joined, IsDigit;
    if len == 0 {
      assert ip[..8] == ip;
      JoinedShort(ip);
      JoinedChars(ip);
    } else {
      BodySplit(ip, start, len);
      JoinedShort(ip[..start]);
      JoinedChars(ip[..start]);
      JoinedShort(ip[start + len..]);
      JoinedChars(ip[start + len..]);
    }
  }

  lemma {:induction false} BracketAfter(t: string, tail: string)
    requires ']' !in t
    ensures Bracket(t + ("]" + tail)) == |t|
  {
    if t == "" {
      assert t + ("]" + tail) == "]" + tail;
    } else {
      assert t[0] in t && forall c :: c in t[1..] ==> c in t;
      assert (t + ("]" + tail))[1..] == t[1..] + ("]" + tail);
      BracketAfter(t[1..], tail);
    }
  }

  /** A bracketed text is accepted when the grammar takes what is inside and the tail. */
  lemma BracketReads(t: string, g: seq<nat>, tail: string, port: nat)
    requires ']' !in t && |t| <= 127 && Text6(t) == Some(g) && Tail6(tail) == Some(port)
    ensures |g| == 8 && Groups16(g)
    ensures Parsed("[" + (t + ("]" + tail))) == Some(NetAddr(NETTYPE_IPV6, Bytes6(g), port))
  {
    hide Text6, Tail6, Bracket, Bytes6;
    var s := t + ("]" + tail);
    assert ("[" + s)[1..] == s;
    BracketAfter(t, tail);
    Text6Bounded(t);
    assert s[..|t|] == t;
    assert s[|t|..] == "]" + tail;
    assert ("]" + tail)[1..] == tail;
  }

  lemma GroupsBytes(ip: seq<byte>)
    requires |ip| == 16
    ensures Groups16(GroupsOf(ip)) && Bytes6(GroupsOf(ip)) == ip
  {
    GroupsFit(ip);
    hide GroupsOf, Bytes6, Groups16;
    forall i | 0 <= i < 16 ensures Bytes6(GroupsOf(ip))[i] == ip[i] {
      ByteBack(ip, i);
    }
  }

  lemma GroupsFit(ip: seq<byte>)
    requires |ip| == 16
    ensures Groups16(GroupsOf(ip))
  {
  }

  lemma ByteBack(ip: seq<byte>, i: nat)
    requires |ip| == 16 && i < 16 && Groups16(GroupsOf(ip))
    ensures Bytes6(GroupsOf(ip))[i] == ip[i]
  {
    hide Pair, Groups16;
    var k := i / 2;
    assert i == 2 * k + i % 2;
    HighLow(ip[2 * k], ip[2 * k + 1]);
  }

  lemma HighLow(high: byte, low: byte)
    ensures Pair(high, low) / 256 == high && Pair(high, low) % 256 == low
  {
  }

  lemma NoBracket(t: string)
    requires AddressChars(t)
    ensures ']' !in t
  {
  }

  lemma FormParts(g: seq<nat>, port: int, full: string) returns (start: int, len: nat)
    requires Form6(g, port, full)
    ensures Compressed(g, start, len)
    ensures full == "[" + Body(g, start, len, |g|) + "]" + PortText(port)
  {
    start, len :| Compressed(g, start, len) && full == "[" + Body(g, start, len, |g|) + "]" + PortText(port);
  }

  lemma Form6Unique(g: seq<nat>, port: int, one: string, other: string)
    requires Form6(g, port, one) && Form6(g, port, other)
    ensures one == other
  {
    var start, len := FormParts(g, port, one);
    var start', len' := FormParts(g, port, other);
    CompressedUnique(g, start, len, start', len');
    hide Body, Compressed;
  }

  // A printed IPv6 text fits the buffer and reads back as the same groups and port.
  ghost predicate Reads6(ip: seq<byte>, port: int, full: string)
    requires |ip| == 16
  {
    |full| <= 47 && Parsed(full) == Some(NetAddr(NETTYPE_IPV6, ip, if port >= 0 then port else 0))
  }

  /** Every printed IPv6 text does. */
  lemma Form6Reads(ip: seq<byte>, port: int, full: string)
    requires |ip| == 16 && port <= 65535
    ensures Form6(GroupsOf(ip), port, full) ==> Reads6(ip, port, full)
  {
    hide Text6, Parsed, PortText, Tail6, Bytes6, GroupsOf, Compressed, Body, Form6;
    if Form6(GroupsOf(ip), port, full) {
      var g := GroupsOf(ip);
      GroupsBytes(ip);
      var start, len := FormParts(g, port, full);
      BodyReads(g, start, len);
      BodyShape(g, start, len);
      var t := Body(g, start, len, |g|);
      NoBracket(t);
      PortTail(port);
      PortShort(port);
      BracketReads(t, g, PortText(port), if port >= 0 then port else 0);
      assert full == "[" + (t + ("]" + PortText(port)));
    }
  }

  /** An address has only one printed text. */
  lemma FormUnique(addr: NetAddr, addPort: bool, one: string, other: string)
    requires ValidAddr(addr) && Form(addr, addPort, one) && Form(addr, addPort, other)
    ensures one == other
  {
    if !Prints4(addr.kind) {
      Form6Unique(GroupsOf(addr.ip), if addPort then addr.port else -1, one, other);
    }
    hide Form6, Form4;
  }

  // ---------------------------------------------------------------- the round trip

  /** The address that a printed text stands for. */
  function Denoted(addr: NetAddr, addPort: bool): NetAddr
    requires ValidAddr(addr)
  {
    var port := if addPort then addr.port else 0;
    if Prints4(addr.kind) then NetAddr(NETTYPE_IPV4, addr.ip[..4] + seq(12, _ => 0), port)
    else NetAddr(NETTYPE_IPV6, addr.ip, port)
  }

  /** Every printed text has at most 47 characters and parses to the address it stands for. */
  lemma PrintedReads(addr: NetAddr, addPort: bool, full: string)
    requires ValidAddr(addr) && Form(addr, addPort, full)
    ensures |full| <= 47 && Parsed(full) == Some(Denoted(addr, addPort))
  {
    if Prints4(addr.kind) {
      DottedReads(addr, addPort);
      DottedStarts(addr, addPort);
      DottedShort(addr, addPort);
      hide Parsed4, Form4;
    } else {
      Form6Reads(addr.ip, if addPort then addr.port else -1, full);
      hide Parsed, Form6;
    }
  }

  lemma KindKept(addr: NetAddr)
    requires ValidAddr(addr)
    ensures Denoted(addr, true) == addr <==>
      if Prints4(addr.kind) then addr.kind == NETTYPE_IPV4 && addr.ip[4..] == seq(12, _ => 0)
      else addr.kind == NETTYPE_IPV6
  {
    assert addr.ip == addr.ip[..4] + addr.ip[4..];
    hide Prints4;
  }

  /**
   * Printing with the port and parsing gives the same address back exactly when its type is plain
   * IPv6, or plain IPv4 with the unused bytes zero.
   */
  lemma RoundTripIff(addr: NetAddr, full: string)
    requires ValidAddr(addr)
    ensures Form(addr, true, full) ==>
      (Parsed(full) == Some(addr) <==>
        addr.kind == NETTYPE_IPV6 || (addr.kind == NETTYPE_IPV4 && addr.ip[4..] == seq(12, _ => 0)))
  {
    hide Form, Parsed, Denoted;
    if Form(addr, true, full) {
      PrintedReads(addr, true, full);
      KindKept(addr);
      KindBits();
    }
  }

  lemma KindBits()
    ensures Prints4(NETTYPE_IPV4) && !Prints4(NETTYPE_IPV6)
  {
  }

  /** Bits 0 and 2 of the type ask for the dotted form, else bits 1 and 3 for the bracketed one. */
  lemma KindsAre(kind: bv8)
    ensures Prints4(kind) <==> kind % 2 == 1 || kind / 4 % 2 == 1
    ensures Prints6(kind) <==> kind % 2 == 0 && kind / 4 % 2 == 0 && (kind / 2 % 2 == 1 || kind / 8 % 2 == 1)
    ensures Prints4(kind) && kind < 2 ==> kind == NETTYPE_IPV4
    ensures Prints6(kind) && kind < 4 ==> kind == NETTYPE_IPV6
  {
  }

  /** The same through the methods: what a sufficient buffer receives parses back. */
  method PrintThenParse(addr: NetAddr, size: nat, addPort: bool) returns (text: string, back: Option<NetAddr>)
    requires ValidAddr(addr) && (Prints4(addr.kind) || Prints6(addr.kind)) && size >= 48
    ensures Form(addr, addPort, text) && |text| <= 47
    ensures back == Some(Denoted(addr, addPort))
  {
    hide Form, Parsed, Denoted, Prints4, Prints6;
    text := Print(addr, size, addPort);
    ghost var full :| Form(addr, addPort, full) && text == Cut(full, size);
    PrintedReads(addr, addPort, full);
    assert text == full;
    back := FromStr(text);
  }

  // ---------------------------------------------------------------- exactly what is accepted

  // A dotted text: four digit strings up to 255, then nothing or a colon and a port.
  ghost predicate DottedText(s: string, ip: seq<byte>, port: nat) {
    exists a, b, c, d, q: Quad ::
      && s == Dotted(a, b, c, d, q.rest)
      && Spells(a, q.a, 255) && Spells(b, q.b, 255) && Spells(c, q.c, 255) && Spells(d, q.d, 255)
      && TailText(q.rest, port) && ip == [q.a, q.b, q.c, q.d] + seq(12, _ => 0)
  }

  ghost predicate TailText(rest: string, port: nat) {
    (rest == "" && port == 0) || (rest != "" && rest[0] == ':' && Spells(rest[1..], port, 65535))
  }

  lemma TailTextIff(rest: string, port: nat)
    ensures TailText(rest, port) <==> Tail4(rest) == Some(port)
    ensures TailText(rest, port) ==> Ends(rest)
  {
    if rest != "" && rest[0] == ':' {
      var p := rest[1..];
      assert p + "" == p;
      if Spells(p, port, 65535) {
        NumberUpToIs(p, port, 65535, "");
      }
      if NumberUpTo(p, 65535).Some? {
        var t := NumberSplits(p, 65535);
        assert NumberUpTo(p, 65535).value.rest == "" ==> t == p;
      }
    }
    hide NumberUpTo, Spells;
  }

  lemma DottedParts(s: string, ip: seq<byte>, port: nat)
    returns (a: string, b: string, c: string, d: string, q: Quad)
    requires DottedText(s, ip, port)
    ensures s == Dotted(a, b, c, d, q.rest)
    ensures Spells(a, q.a, 255) && Spells(b, q.b, 255) && Spells(c, q.c, 255) && Spells(d, q.d, 255)
    ensures TailText(q.rest, port) && ip == [q.a, q.b, q.c, q.d] + seq(12, _ => 0)
  {
    a, b, c, d, q :|
      && s == Dotted(a, b, c, d, q.rest)
      && Spells(a, q.a, 255) && Spells(b, q.b, 255) && Spells(c, q.c, 255) && Spells(d, q.d, 255)
      && TailText(q.rest, port) && ip == [q.a, q.b, q.c, q.d] + seq(12, _ => 0);
  }

  /** A string without a bracket parses to an address exactly when it is its dotted text. */
  lemma Accepts4Iff(s: string, ip: seq<byte>, port: nat)
    ensures Parsed4(s) == Some(NetAddr(NETTYPE_IPV4, ip, port)) <==> DottedText(s, ip, port)
  {
    hide Spells, Ends, FourOctets, Tail4, Dotted, TailText;
    if DottedText(s, ip, port) {
      var a, b, c, d, q := DottedParts(s, ip, port);
      TailTextIff(q.rest, port);
      FourOctetsIs(a, b, c, d, q);
    }
    if Parsed4(s) == Some(NetAddr(NETTYPE_IPV4, ip, port)) {
      var a, b, c, d := FourOctetsSplits(s);
      TailTextIff(FourOctets(s).value.rest, port);
    }
  }

  // Where an accepted bracketed string is split.
  lemma BracketSplits(s: string) returns (t: string, tail: string)
    requires s != "" && s[0] == '[' && Parsed(s).Some?
    ensures s == "[" + (t + ("]" + tail)) && ']' !in t && |t| <= 127
    ensures Text6(t).Some? && |Text6(t).value| == 8 && Groups16(Text6(t).value)
    ensures Tail6(tail).Some?
    ensures Parsed(s).value == NetAddr(NETTYPE_IPV6, Bytes6(Text6(t).value), Tail6(tail).value)
  {
    hide Text6, Tail6, Bytes6;
    var rest := s[1..];
    var k := Min(Bracket(rest), 127);
    t, tail := rest[..k], rest[k + 1..];
    Text6Bounded(t);
    assert rest[k..] == "]" + tail;
    assert rest == t + ("]" + tail);
  }
}
