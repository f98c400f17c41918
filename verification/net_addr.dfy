/**
 * The address printer and parser of src/base/net.cpp: net_addr_str_v6, net_addr_str and
 * net_addr_from_str. A cursor into a string is the rest of that string.
 */
module NetAddress {
  import opened Base
  import opened NetText

  const NETTYPE_IPV4: bv8 := 1
  const NETTYPE_IPV6: bv8 := 2
  const NETTYPE_WEBSOCKET_IPV4: bv8 := 4
  const NETTYPE_WEBSOCKET_IPV6: bv8 := 8

  const NETADDR_MAXSTRSIZE: nat := 48

  datatype NetAddr = NetAddr(kind: bv8, ip: seq<byte>, port: nat)

  predicate ValidAddr(addr: NetAddr) {
    |addr.ip| == 16 && addr.port <= 65535
  }

  predicate Prints4(kind: bv8) { kind & (NETTYPE_IPV4 | NETTYPE_WEBSOCKET_IPV4) != 0 }

  predicate Prints6(kind: bv8) { !Prints4(kind) && kind & (NETTYPE_IPV6 | NETTYPE_WEBSOCKET_IPV6) != 0 }

  // ---------------------------------------------------------------- the run of zeros

  predicate ZeroRun(ip: seq<nat>, start: int, len: int) {
    0 <= start && 0 < len && start + len <= |ip| && forall i :: start <= i < start + len ==> ip[i] == 0
  }

  // Every zero run that ends by `end` is no longer, and one as long starts no earlier.
  ghost predicate BestBy(ip: seq<nat>, end: int, start: int, len: int) {
    && (if len == 0 then start == -1 else ZeroRun(ip, start, len) && start + len <= end)
    && forall s, n :: ZeroRun(ip, s, n) && s + n <= end ==> n < len || (n == len && start <= s)
  }

  /** The run to compress: the leftmost longest of two or more zeros, if there is any. */
  ghost predicate Compressed(ip: seq<nat>, start: int, len: int) {
    if len == 0 then start == -1 && forall s, n :: ZeroRun(ip, s, n) ==> n == 1
    else len >= 2 && BestBy(ip, |ip|, start, len)
  }

  lemma CompressedUnique(ip: seq<nat>, start: int, len: int, start': int, len': int)
    requires Compressed(ip, start, len) && Compressed(ip, start', len')
    ensures start == start' && len == len'
  {
  }

  // Where the scan of net_addr_str_v6 stands before index i.
  ghost predicate Scanned(ip: seq<nat>, i: int, start: int, len: int) {
    if start == -1 then len == 0 && (0 < i <= |ip| ==> ip[i - 1] != 0)
    else ZeroRun(ip, start, len) && start + len == i && (start > 0 ==> ip[start - 1] != 0)
  }

  lemma RunCloses(ip: seq<nat>, i: int, start: int, len: int, bestStart: int, bestLen: int)
    requires 0 <= i <= |ip| && start != -1 && Scanned(ip, i, start, len)
    requires BestBy(ip, start, bestStart, bestLen)
    ensures if bestLen < len then BestBy(ip, i, start, len) else BestBy(ip, i, bestStart, bestLen)
  {
    forall s, n | ZeroRun(ip, s, n) && s + n <= i ensures s + n <= start || s >= start {
    }
  }

  lemma NonZeroPasses(ip: seq<nat>, i: int, bestStart: int, bestLen: int)
    requires 0 <= i < |ip| && ip[i] != 0 && BestBy(ip, i, bestStart, bestLen)
    ensures BestBy(ip, i + 1, bestStart, bestLen)
  {
    forall s, n | ZeroRun(ip, s, n) && s + n <= i + 1 ensures s + n <= i {
    }
  }

  method FindRun(ip: seq<nat>) returns (longestStart: int, longestLen: int)
    ensures Compressed(ip, longestStart, longestLen)
  {
    longestLen, longestStart := 0, -1;
    var len, start := 0, -1;
    var i := 0;
    while i < |ip| + 1
      invariant 0 <= i <= |ip| + 1
      invariant i <= |ip| ==> Scanned(ip, i, start, len)
      invariant i <= |ip| ==> BestBy(ip, if start != -1 then start else i, longestStart, longestLen)
      invariant i == |ip| + 1 ==> BestBy(ip, |ip|, longestStart, longestLen)
    {
      hide BestBy;
      if start != -1 {
        if i == |ip| || ip[i] != 0 {
          RunCloses(ip, i, start, len, longestStart, longestLen);
          if longestLen < len {
            longestLen, longestStart := len, start;
          }
          len, start := 0, -1;
          if i < |ip| {
            NonZeroPasses(ip, i, longestStart, longestLen);
          }
        } else {
          len := len + 1;
        }
      } else if i != |ip| && ip[i] == 0 {
        start, len := i, 1;
      } else if i != |ip| {
        NonZeroPasses(ip, i, longestStart, longestLen);
      }
      i := i + 1;
    }
    if longestLen <= 1 {
      longestLen, longestStart := 0, -1;
    }
  }

  // ---------------------------------------------------------------- the printed form

  // What fits in a buffer of that size, with the terminator.
  function Cut(full: string, size: nat): string
    requires size > 0
  {
    full[..Min(|full|, size - 1)]
  }

  // str_copy or str_format at the end of what the buffer holds; the text is ASCII.
  function Put(text: string, piece: string, size: nat): string
    requires |text| < size
  {
    text + Cut(piece, size - |text|)
  }

  lemma PutIsCut(full: string, piece: string, size: nat)
    requires size > 0
    ensures Put(Cut(full, size), piece, size) == Cut(full + piece, size)
  {
  }

  // The groups before i, with the compressed run.
  function Body(ip: seq<nat>, start: int, len: nat, i: nat): string
    requires i <= |ip| && (len > 0 ==> 0 <= start && start + len <= |ip|)
  {
    if len == 0 || i <= start then Joined(ip[..i])
    else Joined(ip[..start]) + ("::" + if i <= start + len then "" else Joined(ip[start + len..i]))
  }

  function PortText(port: int): string {
    if port >= 0 then ":" + Numeral(port, false) else ""
  }

  /** "[", the groups with the leftmost longest run of zeros as "::", "]", and the port if there is one. */
  ghost predicate Form6(ip: seq<nat>, port: int, full: string) {
    exists start, len: nat :: Compressed(ip, start, len)
      && full == "[" + Body(ip, start, len, |ip|) + "]" + PortText(port)
  }

  lemma {:induction false} JoinedSnoc(g: seq<nat>, v: nat)
    ensures Joined(g + [v]) == Joined(g) + ((if g == [] then "" else ":") + Numeral(v, true))
  {
    hide Numeral;
    if g != [] {
      assert (g + [v])[1..] == g[1..] + [v];
      assert (g + [v])[0] == g[0];
      JoinedSnoc(g[1..], v);
    }
  }

  // What the second loop prints for group i.
  function Piece(ip: seq<nat>, start: int, len: nat, i: nat): string
    requires i < |ip|
  {
    if start <= i < start + len then (if i == start then "::" else "")
    else (if i == 0 || i == start + len then "" else ":") + Numeral(ip[i], true)
  }

  lemma BodyGrows(ip: seq<nat>, start: int, len: nat, i: nat)
    requires i < |ip| && (if len > 0 then 0 <= start && start + len <= |ip| else start == -1)
    ensures Body(ip, start, len, i + 1) == Body(ip, start, len, i) + Piece(ip, start, len, i)
  {
    hide Numeral, Joined;
    if len == 0 || i < start {
      JoinedMore(ip, 0, i);
      assert ip[0..i] == ip[..i] && ip[0..i + 1] == ip[..i + 1];
    } else if i >= start + len {
      JoinedMore(ip, start + len, i);
      BodyBehind(ip, start, len, i);
    }
  }

  // The groups from j on, up to and with group i.
  lemma JoinedMore(ip: seq<nat>, j: nat, i: nat)
    requires j <= i < |ip|
    ensures Joined(ip[j..i + 1]) == Joined(ip[j..i]) + ((if i == j then "" else ":") + Numeral(ip[i], true))
  {
    hide Numeral, Joined;
    assert ip[j..i + 1] == ip[j..i] + [ip[i]];
    JoinedSnoc(ip[j..i], ip[i]);
  }

  lemma BodyBehind(ip: seq<nat>, start: int, len: nat, i: nat)
    requires 0 <= start && 0 < len && start + len <= i < |ip|
    ensures Body(ip, start, len, i) == Joined(ip[..start]) + ("::" + Joined(ip[start + len..i]))
    ensures Body(ip, start, len, i + 1) == Joined(ip[..start]) + ("::" + Joined(ip[start + len..i + 1]))
  {
    JoinedNone();
    assert ip[start + len..start + len] == [];
    hide Joined;
  }

  lemma JoinedNone()
    ensures Joined([]) == ""
  {
  }

  lemma CompressedBounds(ip: seq<nat>, start: int, len: int)
    requires Compressed(ip, start, len)
    ensures len >= 0 && if len > 0 then 0 <= start && start + len <= |ip| else start == -1
  {
  }

  method Print6(ip: seq<nat>, port: int, size: nat) returns (text: string)
    requires |ip| == 8 && size > 0
    ensures exists full :: Form6(ip, port, full) && text == Cut(full, size)
  {
    hide Compressed, Body, Cut, Put, Numeral, Piece;
    var start, len := FindRun(ip);
    CompressedBounds(ip, start, len);
    ghost var full := "[" + Body(ip, start, len, 0);
    text := PrintStart(ip, start, len, size);
    var i := 0;
    while i < |ip|
      invariant 0 <= i <= |ip|
      invariant full == "[" + Body(ip, start, len, i) && text == Cut(full, size)
    {
      text := PrintGroup(ip, start, len, i, size, text, full);
      BodyGrows(ip, start, len, i);
      full := full + Piece(ip, start, len, i);
      i := i + 1;
    }
    text := PrintEnd(text, port, size, full);
    assert Form6(ip, port, full + "]" + PortText(port));
  }

  method PrintStart(ip: seq<nat>, start: int, len: nat, size: nat) returns (text: string)
    requires size > 0 && (len > 0 ==> 0 <= start && start + len <= |ip|)
    ensures text == Cut("[" + Body(ip, start, len, 0), size)
  {
    text := Put("", "[", size);
    assert "" + Cut("[", size) == Cut("[", size);
    assert Body(ip, start, len, 0) == "" by { if len > 0 && start < 0 { assert false; } }
    assert "[" + "" == "[";
  }

  method PrintGroup(ip: seq<nat>, start: int, len: nat, i: nat, size: nat, was: string, ghost full: string)
    returns (text: string)
    requires size > 0 && i < |ip| && was == Cut(full, size)
    ensures text == Cut(full + Piece(ip, start, len, i), size)
  {
    hide Put, Cut, Numeral;
    text := was;
    if start <= i < start + len {
      if i == start {
        CutFits(full, size);
        text := Put(text, "::", size);
        PutIsCut(full, "::", size);
      } else {
        assert full + "" == full;
      }
    } else {
      var colon := if i == 0 || i == start + len then "" else ":";
      CutFits(full, size);
      text := Put(text, colon + Numeral(ip[i], true), size);
      PutIsCut(full, colon + Numeral(ip[i], true), size);
    }
  }

  lemma CutFits(full: string, size: nat)
    requires size > 0
    ensures |Cut(full, size)| < size
  {
  }

  method PrintEnd(was: string, port: int, size: nat, ghost full: string) returns (text: string)
    requires size > 0 && was == Cut(full, size)
    ensures text == Cut(full + "]" + PortText(port), size)
  {
    hide Put, Cut, Numeral;
    CutFits(full, size);
    text := Put(was, "]", size);
    PutIsCut(full, "]", size);
    if port >= 0 {
      CutFits(full + "]", size);
      text := Put(text, ":" + Numeral(port, false), size);
      PutIsCut(full + "]", ":" + Numeral(port, false), size);
    } else {
      assert full + "]" + "" == full + "]";
    }
  }

  // The sixteen bytes as eight groups, high byte first.
  function GroupsOf(ip: seq<byte>): (g: seq<nat>)
    requires |ip| == 16
    ensures |g| == 8
  {
    seq(8, i requires 0 <= i < 8 => Pair(ip[2 * i], ip[2 * i + 1]))
  }

  function Form4(addr: NetAddr, addPort: bool): string
    requires ValidAddr(addr)
  {
    Dotted(Numeral(addr.ip[0], false), Numeral(addr.ip[1], false), Numeral(addr.ip[2], false),
      Numeral(addr.ip[3], false), PortText(if addPort then addr.port else -1))
  }

  /** The whole text of an address. */
  ghost predicate Form(addr: NetAddr, addPort: bool, full: string)
    requires ValidAddr(addr)
  {
    if Prints4(addr.kind) then full == Form4(addr, addPort)
    else Form6(GroupsOf(addr.ip), if addPort then addr.port else -1, full)
  }

  method Print(addr: NetAddr, size: nat, addPort: bool) returns (text: string)
    requires ValidAddr(addr) && (Prints4(addr.kind) || Prints6(addr.kind)) && size > 0
    ensures exists full :: Form(addr, addPort, full) && text == Cut(full, size)
  {
    hide Numeral, Cut, Dotted, Form6, PortText, Prints4, Prints6;
    if Prints4(addr.kind) {
      ghost var full := Form4(addr, addPort);
      assert Form(addr, addPort, full);
      text := Cut(Form4(addr, addPort), size);
    } else {
      var ip := ReadGroups(addr.ip);
      var port := if addPort then addr.port else -1;
      text := Print6(ip, port, size);
      ghost var full :| Form6(ip, port, full) && text == Cut(full, size);
      assert Form(addr, addPort, full);
    }
  }

  method ReadGroups(bytes: seq<byte>) returns (ip: seq<nat>)
    requires |bytes| == 16
    ensures ip == GroupsOf(bytes)
  {
    ip := [];
    for i := 0 to 8
      invariant |ip| == i && forall k :: 0 <= k < i ==> ip[k] == GroupsOf(bytes)[k]
    {
      ip := ip + [Pair(bytes[2 * i], bytes[2 * i + 1])];
    }
  }

  // ---------------------------------------------------------------- parsing

  function Bracket(s: string): (k: nat)
    ensures k <= |s| && (forall i :: 0 <= i < k ==> s[i] != ']') && (k < |s| ==> s[k] == ']')
  {
    if s == "" || s[0] == ']' then 0 else
      var k := 1 + Bracket(s[1..]);
      assert forall i :: 1 <= i < k ==> s[i] == s[1..][i - 1];
      k
  }

  // The end of a dotted address: nothing, or a colon and the port.
  function Tail4(s: string): Option<nat> {
    if s == "" then Some(0)
    else match After(s, ':')
      case None => None
      case Some(rest) => match NumberUpTo(rest, 65535)
        case Some(r) => if r.rest == "" then Some(r.value) else None
        case None => None
  }

  // The end of a bracketed address; what follows the port, or comes in its place, is not looked at.
  function Tail6(s: string): Option<nat> {
    match After(s, ':')
    case None => Some(0)
    case Some(rest) => match NumberUpTo(rest, 65535)
      case Some(r) => Some(r.value)
      case None => None
  }

  function Bytes4(q: Quad): (ip: seq<byte>)
    requires q.a <= 255 && q.b <= 255 && q.c <= 255 && q.d <= 255
    ensures |ip| == 16
  {
    [q.a, q.b, q.c, q.d] + seq(12, _ => 0)
  }

  function Bytes6(g: seq<nat>): (ip: seq<byte>)
    requires |g| == 8 && Groups16(g)
    ensures |ip| == 16
  {
    seq(16, i requires 0 <= i < 16 => if i % 2 == 0 then g[i / 2] / 256 else g[i / 2] % 256)
  }

  lemma {:induction false} FieldsBounded(t: string, quad: bool)
    requires Fields(t, quad).Some?
    ensures Groups16(Fields(t, quad).value)
    decreases |t|
  {
    var p := FindColon(t);
    if p == |t| {
      LastFieldBounded(t, quad);
    } else {
      HexGroupBounded(t[..p]);
      FieldsBounded(t[p + 1..], quad);
    }
    hide HexGroup, LastField, FindColon;
  }

  lemma HexGroupBounded(t: string)
    ensures HexGroup(t).Some? ==> HexGroup(t).value <= 65535
  {
    if HexGroup(t).Some? {
      ValueBounded(t, true);
      assert Power(Radix(true), 4) == 65536;
      PowerGrows(16, |t|, 4);
    }
  }

  lemma {:induction false} ValueBounded(t: string, hex: bool)
    requires AllDigits(t, hex)
    ensures Value(t, hex) < Power(Radix(hex), |t|)
  {
    if t != "" {
      ValueBounded(t[..|t| - 1], hex);
      var v, d, p := Value(t[..|t| - 1], hex), DigitOf(t[|t| - 1]), Power(Radix(hex), |t| - 1);
      assert IsDigit(t[|t| - 1], hex);
      if hex {
        assert v * 16 + d < 16 * p;
      } else {
        assert v * 10 + d < 10 * p;
      }
    }
    hide DigitOf;
  }

  lemma FourOctetsBounded(s: string)
    requires FourOctets(s).Some?
    ensures var q := FourOctets(s).value; q.a <= 255 && q.b <= 255 && q.c <= 255 && q.d <= 255
  {
    var a, b, c, d := FourOctetsSplits(s);
  }

  lemma LastFieldBounded(t: string, quad: bool)
    requires LastField(t, quad).Some?
    ensures Groups16(LastField(t, quad).value)
  {
    HexGroupBounded(t);
    if FourOctets(t).Some? {
      FourOctetsBounded(t);
    }
    hide HexGroup, FourOctets;
  }

  lemma Text6Bounded(t: string)
    requires Text6(t).Some?
    ensures |Text6(t).value| == 8 && Groups16(Text6(t).value)
  {
    var p := FindDouble(t);
    if p == |t| {
      FieldsBounded(t, true);
    } else {
      FieldsOrNoneBounded(t[..p], false);
      FieldsOrNoneBounded(t[p + 2..], true);
    }
    hide FindDouble, Fields, FieldsOrNone;
  }

  lemma FieldsOrNoneBounded(t: string, quad: bool)
    requires FieldsOrNone(t, quad).Some?
    ensures Groups16(FieldsOrNone(t, quad).value)
  {
    if t != "" {
      FieldsBounded(t, quad);
    }
    hide Fields;
  }

  function Parsed4(s: string): Option<NetAddr> {
    match FourOctets(s)
    case None => None
    case Some(q) => match Tail4(q.rest)
      case None => None
      case Some(port) => FourOctetsBounded(s); Some(NetAddr(NETTYPE_IPV4, Bytes4(q), port))
  }

  function Parsed6(s: string): Option<NetAddr> {
    var k := Min(Bracket(s), 127);
    match Text6(s[..k])
    case None => None
    case Some(g) => match After(s[k..], ']')
      case None => None
      case Some(rest) => match Tail6(rest)
        case None => None
        case Some(port) => Text6Bounded(s[..k]); Some(NetAddr(NETTYPE_IPV6, Bytes6(g), port))
  }

  /** What net_addr_from_str makes of a string. */
  function Parsed(s: string): Option<NetAddr> {
    match After(s, '[')
    case Some(rest) => Parsed6(rest)
    case None => Parsed4(s)
  }

  method ParseInt(s: string) returns (ok: bool, value: nat, rest: string)
    ensures Number(s) == if ok then Some(Read(value, rest)) else None
  {
    ok, value, rest := false, 0, s;
    if s == "" || !IsDigit(s[0], false) {
      return;
    }
    value, rest := DigitOf(s[0]), s[1..];
    ghost var done := 1;
    FirstDigit(s);
    while rest != "" && IsDigit(rest[0], false)
      invariant 0 < done <= |s| && rest == s[done..]
      invariant AllDigits(s[..done], false) && value == Value(s[..done], false)
      decreases |rest|
    {
      hide IsDigit, DigitOf, Value, AllDigits;
      NextDigit(s, done);
      value := value * 10 + DigitOf(rest[0]);
      rest := rest[1..];
      done := done + 1;
    }
    ok := true;
    assert s == s[..done] + rest;
    NumberIs(s[..done], rest);
  }

  lemma FirstDigit(s: string)
    requires s != "" && IsDigit(s[0], false)
    ensures AllDigits(s[..1], false) && Value(s[..1], false) == DigitOf(s[0])
  {
    ValueSnoc("", s[0], false);
    assert "" + [s[0]] == s[..1];
  }

  lemma NextDigit(s: string, done: nat)
    requires done < |s| && AllDigits(s[..done], false) && IsDigit(s[done], false)
    ensures AllDigits(s[..done + 1], false) && 0 <= DigitOf(s[done])
    ensures Value(s[..done + 1], false) == Value(s[..done], false) * 10 + DigitOf(s[done])
  {
    ValueSnoc(s[..done], s[done], false);
    assert s[..done] + [s[done]] == s[..done + 1];
  }

  method ParseUpTo(s: string, max: nat) returns (ok: bool, value: nat, rest: string)
    ensures NumberUpTo(s, max) == if ok then Some(Read(value, rest)) else None
  {
    hide Number;
    ok, value, rest := ParseInt(s);
    ok := ok && value <= max;
  }

  method ParseChar(c: char, s: string) returns (ok: bool, rest: string)
    ensures After(s, c) == if ok then Some(rest) else None
  {
    ok, rest := s != "" && s[0] == c, s;
    if ok {
      rest := s[1..];
    }
  }

  method ParseOctetDot(s: string) returns (ok: bool, value: nat, rest: string)
    ensures OctetDot(s) == if ok then Some(Read(value, rest)) else None
  {
    hide NumberUpTo, After;
    ok, value, rest := ParseUpTo(s, 255);
    if ok {
      ok, rest := ParseChar('.', rest);
    }
  }

  method FromStr4(s: string) returns (addr: Option<NetAddr>)
    ensures addr == Parsed4(s)
  {
    hide OctetDot, NumberUpTo, Tail4;
    var ok, a, b, c, d, rest;
    addr := None;
    ok, a, rest := ParseOctetDot(s);
    if !ok { return; }
    ok, b, rest := ParseOctetDot(rest);
    if !ok { return; }
    ok, c, rest := ParseOctetDot(rest);
    if !ok { return; }
    ok, d, rest := ParseUpTo(rest, 255);
    if !ok { return; }
    var port;
    ok, port := ParseTail4(rest);
    if !ok { return; }
    FourOctetsBounded(s);
    addr := Some(NetAddr(NETTYPE_IPV4, Bytes4(Quad(a, b, c, d, rest)), port));
  }

  method ParseTail4(s: string) returns (ok: bool, port: nat)
    ensures Tail4(s) == if ok then Some(port) else None
  {
    hide NumberUpTo;
    port, ok := 0, true;
    var rest := s;
    if s != "" && s[0] == ':' {
      ok, port, rest := ParseUpTo(s[1..], 65535);
    }
    ok := ok && rest == "";
  }

  method FromStr6(s: string) returns (addr: Option<NetAddr>)
    ensures addr == Parsed6(s)
  {
    hide Text6, Tail6, Bracket;
    addr := None;
    var i := CopyHost(s);
    var g := Text6(s[..i]);
    if g.None? { return; }
    Text6Bounded(s[..i]);
    var ok, rest := ParseChar(']', s[i..]);
    if !ok { return; }
    var port;
    ok, port := ParseTail6(rest);
    if !ok { return; }
    addr := Some(NetAddr(NETTYPE_IPV6, Bytes6(g.value), port));
  }

  // How much goes to the buffer for inet_pton.
  method CopyHost(s: string) returns (i: nat)
    ensures i == Min(Bracket(s), 127)
  {
    i := 0;
    while i < 127 && i < |s| && s[i] != ']'
      invariant i <= |s| && i <= 127 && i <= Bracket(s)
    {
      i := i + 1;
    }
  }

  method ParseTail6(s: string) returns (ok: bool, port: nat)
    ensures Tail6(s) == if ok then Some(port) else None
  {
    hide NumberUpTo;
    port, ok := 0, true;
    if s != "" && s[0] == ':' {
      var rest;
      ok, port, rest := ParseUpTo(s[1..], 65535);
    }
  }

  method FromStr(s: string) returns (addr: Option<NetAddr>)
    ensures addr == Parsed(s)
  {
    hide Parsed4, Parsed6;
    if s != "" && s[0] == '[' {
      addr := FromStr6(s[1..]);
    } else {
      addr := FromStr4(s);
    }
  }
}
