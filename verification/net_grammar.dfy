/**
 * The texts of section 2.2 of RFC 4291, written as what they are made of: the parser takes exactly
 * these, whether printed or not, with letters of either case.
 */
module NetGrammar {
  import opened Base
  import opened NetText
  import opened NetAddress
  import opened NetRoundTrip

  // ---------------------------------------------------------------- the grammar

  // One to four hexadecimal digits, for their value.
  predicate GroupText(t: string, v: nat) {
    1 <= |t| <= 4 && AllDigits(t, true) && Value(t, true) == v
  }

  predicate GroupTexts(parts: seq<string>, g: seq<nat>) {
    |parts| == |g| && forall i :: 0 <= i < |g| ==> GroupText(parts[i], g[i])
  }

  // Four decimal numbers with dots between, for two groups of two bytes.
  ghost predicate DottedGroups(t: string, g: seq<nat>) {
    exists a, b, c, d, q: Quad ::
      && t == Dotted(a, b, c, d, "")
      && Spells(a, q.a, 255) && Spells(b, q.b, 255) && Spells(c, q.c, 255) && Spells(d, q.d, 255)
      && g == [q.a * 256 + q.b, q.c * 256 + q.d]
  }

  ghost predicate LastText(t: string, quad: bool, g: seq<nat>) {
    (|g| == 1 && GroupText(t, g[0])) || (quad && DottedGroups(t, g))
  }

  // The texts with colons between.
  function Coloned(parts: seq<string>, last: string): string {
    if parts == [] then last else parts[0] + (":" + Coloned(parts[1..], last))
  }

  ghost predicate ListText(t: string, quad: bool, g: seq<nat>) {
    exists parts, last, front, back ::
      t == Coloned(parts, last) && g == front + back && GroupTexts(parts, front) && LastText(last, quad, back)
  }

  ghost predicate SideText(t: string, quad: bool, g: seq<nat>) {
    (t == "" && g == []) || ListText(t, quad, g)
  }

  // Zeros between the groups of two sides, eight groups in all.
  predicate Padded(left: seq<nat>, right: seq<nat>, g: seq<nat>) {
    |left| + |right| <= 7 && g == left + ZeroGroups(8 - |left| - |right|) + right
  }

  // Two sides with a "::" between.
  ghost predicate Sides(t: string, l: string, r: string, left: seq<nat>, right: seq<nat>) {
    t == l + ("::" + r) && SideText(l, false, left) && SideText(r, true, right)
  }

  ghost predicate ShortText(t: string, g: seq<nat>) {
    exists l, r, left, right :: Sides(t, l, r, left, right) && Padded(left, right, g)
  }

  /** The text stands for these eight groups. */
  ghost predicate Means6(t: string, g: seq<nat>) {
    (|g| == 8 && ListText(t, true, g)) || ShortText(t, g)
  }

  // ---------------------------------------------------------------- every such text is read

  lemma GroupIs(t: string, v: nat)
    ensures GroupText(t, v) <==> HexGroup(t) == Some(v)
    ensures GroupText(t, v) ==> Plain(t) && t != ""
  {
    hide Value;
  }

  lemma OctetPlain(t: string, v: nat)
    requires Spells(t, v, 255)
    ensures Plain(t) && t != ""
  {
    hide Value;
  }

  lemma PlainSum(s: string, t: string)
    requires Plain(s) && Plain(t)
    ensures Plain(s + t)
  {
  }

  lemma DottedPlain(a: string, b: string, c: string, d: string)
    requires Plain(a) && Plain(b) && Plain(c) && Plain(d)
    ensures Plain(Dotted(a, b, c, d, ""))
  {
    PlainSum(d, "");
    PlainSum(".", d + "");
    PlainSum(c, "." + (d + ""));
    PlainSum(".", c + ("." + (d + "")));
    PlainSum(b, "." + (c + ("." + (d + ""))));
    PlainSum(".", b + ("." + (c + ("." + (d + "")))));
    PlainSum(a, "." + (b + ("." + (c + ("." + (d + ""))))));
    hide Plain;
  }

  lemma DotNoGroup(s: string, t: string)
    ensures HexGroup(s + ("." + t)) == None
  {
    assert (s + ("." + t))[|s|] == '.';
    hide Value;
  }

  lemma DottedParts(t: string, g: seq<nat>) returns (a: string, b: string, c: string, d: string, q: Quad)
    requires DottedGroups(t, g)
    ensures t == Dotted(a, b, c, d, "") && q.rest == ""
    ensures Spells(a, q.a, 255) && Spells(b, q.b, 255) && Spells(c, q.c, 255) && Spells(d, q.d, 255)
    ensures g == [Pair(q.a, q.b), Pair(q.c, q.d)]
  {
    hide Spells, Dotted;
    a, b, c, d, q :|
      && t == Dotted(a, b, c, d, "")
      && Spells(a, q.a, 255) && Spells(b, q.b, 255) && Spells(c, q.c, 255) && Spells(d, q.d, 255)
      && g == [q.a * 256 + q.b, q.c * 256 + q.d];
    q := q.(rest := "");
  }

  lemma LastDotted(t: string, q: Quad, g: seq<nat>)
    requires HexGroup(t) == None && FourOctets(t) == Some(q) && q.rest == ""
    requires g == [Pair(q.a, q.b), Pair(q.c, q.d)]
    ensures LastField(t, true) == Some(g)
  {
    hide HexGroup, FourOctets;
  }

  lemma DottedRead(t: string, g: seq<nat>)
    requires DottedGroups(t, g)
    ensures Plain(t) && t != "" && LastField(t, true) == Some(g)
  {
    hide Spells, Plain, FourOctets, HexGroup, Value, Pair, DottedGroups;
    var a, b, c, d, q := DottedParts(t, g);
    OctetPlain(a, q.a);
    OctetPlain(b, q.b);
    OctetPlain(c, q.c);
    OctetPlain(d, q.d);
    DottedPlain(a, b, c, d);
    FourOctetsIs(a, b, c, d, q);
    DotNoGroup(a, b + ("." + (c + ("." + (d + "")))));
    LastDotted(t, q, g);
  }

  lemma LastRead(t: string, quad: bool, g: seq<nat>)
    requires LastText(t, quad, g)
    ensures Plain(t) && t != "" && LastField(t, quad) == Some(g)
  {
    if |g| == 1 && GroupText(t, g[0]) {
      GroupIs(t, g[0]);
      assert g == [g[0]];
    } else {
      DottedRead(t, g);
    }
    hide GroupText, HexGroup, FourOctets, DottedGroups, Plain;
  }

  lemma {:induction false} ListRead(parts: seq<string>, last: string, front: seq<nat>, back: seq<nat>, quad: bool)
    requires GroupTexts(parts, front) && LastText(last, quad, back)
    ensures Fields(Coloned(parts, last), quad) == Some(front + back)
  {
    hide FindColon, HexGroup, LastText, GroupText, LastField;
    if parts == [] {
      LastRead(last, quad, back);
      FindColonIs(last, "");
      assert front + back == back;
    } else {
      GroupIs(parts[0], front[0]);
      ListRead(parts[1..], last, front[1..], back, quad);
      FindColonIs(parts[0], Coloned(parts[1..], last));
      FieldsCons(parts[0], Coloned(parts[1..], last), quad);
      assert front + back == [front[0]] + (front[1..] + back);
    }
  }

  // No "::" within such a list.
  lemma {:induction false} ListDouble(parts: seq<string>, last: string, front: seq<nat>, rest: string)
    requires GroupTexts(parts, front) && last != "" && Plain(last)
    requires rest == "" || (|rest| > 1 && rest[0] == rest[1] == ':')
    ensures FindDouble(Coloned(parts, last) + rest) == |Coloned(parts, last)|
    ensures Coloned(parts, last) != "" && Coloned(parts, last)[0] != ':'
  {
    hide FindDouble, GroupText;
    if parts == [] {
      DoubleAfterPlain(last, rest);
      DoubleFirst(rest);
    } else {
      GroupIs(parts[0], front[0]);
      ListDouble(parts[1..], last, front[1..], rest);
      DoubleAfterColon(parts[0], Coloned(parts[1..], last), rest);
    }
  }

  lemma DoubleFirst(rest: string)
    requires rest == "" || (|rest| > 1 && rest[0] == rest[1] == ':')
    ensures FindDouble(rest) == 0
  {
  }

  lemma ListParts(t: string, quad: bool, g: seq<nat>)
    returns (parts: seq<string>, last: string, front: seq<nat>, back: seq<nat>)
    requires ListText(t, quad, g)
    ensures t == Coloned(parts, last) && g == front + back && GroupTexts(parts, front) && LastText(last, quad, back)
  {
    hide Coloned, GroupTexts, LastText;
    parts, last, front, back :|
      t == Coloned(parts, last) && g == front + back && GroupTexts(parts, front) && LastText(last, quad, back);
  }

  lemma SideRead(t: string, quad: bool, g: seq<nat>, rest: string)
    requires SideText(t, quad, g) && (rest == "" || (|rest| > 1 && rest[0] == rest[1] == ':'))
    ensures FieldsOrNone(t, quad) == Some(g) && FindDouble(t + rest) == |t|
  {
    hide Fields, FindDouble, Coloned, LastText, GroupTexts, ListText;
    if t == "" && g == [] {
      DoubleFirst(rest);
      assert t + rest == rest;
    } else {
      var parts, last, front, back := ListParts(t, quad, g);
      ListRead(parts, last, front, back, quad);
      LastRead(last, quad, back);
      ListDouble(parts, last, front, rest);
    }
  }

  lemma ListMeant(t: string, g: seq<nat>)
    requires |g| == 8 && ListText(t, true, g)
    ensures Text6(t) == Some(g)
  {
    hide Fields, FindDouble, ListText, LastText;
    SideRead(t, true, g, "");
    assert t + "" == t;
    var parts, last, front, back := ListParts(t, true, g);
    LastRead(last, true, back);
    ListDouble(parts, last, front, "");
  }

  lemma SidesRead(t: string, l: string, r: string, left: seq<nat>, right: seq<nat>)
    requires Sides(t, l, r, left, right)
    ensures Text6(t) == Filled(Some(left), Some(right))
  {
    hide FieldsOrNone, FindDouble, SideText, Text6, Filled;
    SideRead(l, false, left, "::" + r);
    SideRead(r, true, right, "");
    Text6Split(l, r);
  }

  lemma ShortMeant(t: string, g: seq<nat>)
    requires ShortText(t, g)
    ensures Text6(t) == Some(g)
  {
    hide Sides, Text6, ZeroGroups;
    var l, r, left, right :| Sides(t, l, r, left, right) && Padded(left, right, g);
    SidesRead(t, l, r, left, right);
  }

  // ---------------------------------------------------------------- and nothing else is

  lemma LastSplits(t: string, quad: bool)
    requires LastField(t, quad).Some?
    ensures LastText(t, quad, LastField(t, quad).value)
  {
    hide HexGroup, FourOctets, Spells, Dotted, GroupText;
    var g := LastField(t, quad).value;
    if HexGroup(t).Some? {
      GroupIs(t, g[0]);
    } else {
      var a, b, c, d := FourOctetsSplits(t);
      var q := FourOctets(t).value;
      assert DottedGroups(t, g);
    }
  }

  lemma {:induction false} FieldsSplit(t: string, quad: bool)
    returns (parts: seq<string>, last: string, front: seq<nat>, back: seq<nat>)
    requires Fields(t, quad).Some?
    ensures t == Coloned(parts, last) && Fields(t, quad) == Some(front + back)
    ensures GroupTexts(parts, front) && LastText(last, quad, back)
    decreases |t|
  {
    hide FindColon, HexGroup, LastText, LastField, GroupText;
    var p := FindColon(t);
    if p == |t| {
      LastSplits(t, quad);
      parts, last, front, back := [], t, [], LastField(t, quad).value;
      assert front + back == back;
    } else {
      var v := HexGroup(t[..p]).value;
      GroupIs(t[..p], v);
      var more, values;
      more, last, values, back := FieldsSplit(t[p + 1..], quad);
      parts, front := [t[..p]] + more, [v] + values;
      assert parts[1..] == more;
      assert t == t[..p] + (":" + t[p + 1..]);
      assert front + back == [v] + (values + back);
    }
  }

  lemma FieldsAre(t: string, quad: bool)
    requires Fields(t, quad).Some?
    ensures ListText(t, quad, Fields(t, quad).value)
  {
    hide Fields, Coloned, GroupTexts, LastText;
    var parts, last, front, back := FieldsSplit(t, quad);
  }

  lemma SideAre(t: string, quad: bool)
    requires FieldsOrNone(t, quad).Some?
    ensures SideText(t, quad, FieldsOrNone(t, quad).value)
  {
    hide Fields, ListText;
    if t != "" {
      FieldsAre(t, quad);
    }
  }

  lemma SplitSides(t: string) returns (l: string, r: string, left: seq<nat>, right: seq<nat>)
    requires Text6(t).Some? && FindDouble(t) < |t|
    ensures Sides(t, l, r, left, right) && Text6(t) == Filled(Some(left), Some(right))
  {
    hide FieldsOrNone, FindDouble, SideText, ZeroGroups;
    var p := FindDouble(t);
    l, r := t[..p], t[p + 2..];
    SideAre(l, false);
    SideAre(r, true);
    assert t == l + ("::" + r);
    left, right := FieldsOrNone(l, false).value, FieldsOrNone(r, true).value;
    hide Filled;
  }

  lemma SplitMeans(t: string)
    requires Text6(t).Some? && FindDouble(t) < |t|
    ensures ShortText(t, Text6(t).value)
  {
    hide FindDouble, Sides, ZeroGroups, Text6;
    var l, r, left, right := SplitSides(t);
    assert Padded(left, right, Text6(t).value);
  }

  lemma ReadMeans(t: string)
    requires Text6(t).Some?
    ensures Means6(t, Text6(t).value)
  {
    hide Fields, FindDouble, ListText, ShortText, Filled, FieldsOrNone;
    if FindDouble(t) == |t| {
      FieldsAre(t, true);
    } else {
      SplitMeans(t);
    }
  }

  /** A text is read as eight groups exactly when it stands for them. */
  lemma Text6Iff(t: string, g: seq<nat>)
    ensures Text6(t) == Some(g) <==> Means6(t, g)
  {
    hide Text6, ListText, ShortText;
    if Means6(t, g) {
      if |g| == 8 && ListText(t, true, g) {
        ListMeant(t, g);
      } else {
        ShortMeant(t, g);
      }
    }
    if Text6(t).Some? {
      ReadMeans(t);
    }
  }
}
