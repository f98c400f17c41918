/**
 * windows_args_to_wide of src/base/windows.cpp: quoting a list of arguments so that splitting
 * the command line by the documented Windows rules gives the list back. Arguments are taken as
 * wide strings; the conversion from UTF-8 is a Windows call.
 */
module WindowsArgs {

  // ---------------------------------------------------------------- how a command line is split

  function Slashes(n: nat): (r: string)
    ensures |r| == n
  {
    if n == 0 then "" else "\\" + Slashes(n - 1)
  }

  predicate Blank(c: char) {
    c == ' ' || c == '\t'
  }

  datatype Parsed = Parsed(arg: string, rest: string)

  function Prepend(s: string, p: Parsed): Parsed {
    Parsed(s + p.arg, p.rest)
  }

  /**
   * One argument from the front of `s`, after `n` backslashes already seen. 2n backslashes and a
   * quote are n backslashes and a switch of quoting; 2n+1 and a quote are n backslashes and a
   * literal quote; other backslashes are literal. With `pairs`, two quotes in a row inside a
   * quoted part are one literal quote, as the C runtime has it.
   */
  function ParseArg(s: string, n: nat, quoted: bool, pairs: bool): (p: Parsed)
    ensures |p.rest| <= |s|
    decreases |s|
  {
    if s == "" then Parsed(Slashes(n), "")
    else if s[0] == '\\' then ParseArg(s[1..], n + 1, quoted, pairs)
    else if s[0] == '"' then
      if n % 2 == 1 then Prepend(Slashes(n / 2) + "\"", ParseArg(s[1..], 0, quoted, pairs))
      else if pairs && quoted && |s| > 1 && s[1] == '"' then
        Prepend(Slashes(n / 2) + "\"", ParseArg(s[2..], 0, quoted, pairs))
      else Prepend(Slashes(n / 2), ParseArg(s[1..], 0, !quoted, pairs))
    else if Blank(s[0]) && !quoted then Parsed(Slashes(n), s)
    else Prepend(Slashes(n) + [s[0]], ParseArg(s[1..], 0, quoted, pairs))
  }

  // An argument does not end before its first character.
  lemma ParseArgShrinks(s: string, pairs: bool)
    requires s != "" && !Blank(s[0])
    ensures |ParseArg(s, 0, false, pairs).rest| < |s|
  {
  }

  /** The arguments of a command line. */
  function ParseArgs(s: string, pairs: bool): seq<string>
    decreases |s|
  {
    if s == "" then []
    else if Blank(s[0]) then ParseArgs(s[1..], pairs)
    else
      ParseArgShrinks(s, pairs);
      var p := ParseArg(s, 0, false, pairs);
      [p.arg] + ParseArgs(p.rest, pairs)
  }

  // ---------------------------------------------------------------- quoting

  // The body of a quoted argument from here on, after `n` backslashes already written.
  function Escaped(arg: string, n: nat): string
    decreases |arg|
  {
    if arg == "" then Slashes(n)
    else if arg[0] == '\\' then "\\" + Escaped(arg[1..], n + 1)
    else if arg[0] == '"' then Slashes(n + 1) + "\"" + Escaped(arg[1..], 0)
    else [arg[0]] + Escaped(arg[1..], 0)
  }

  function Quoted(arg: string): string {
    "\"" + Escaped(arg, 0) + "\""
  }

  function QuotedAll(args: seq<string>): string
    decreases |args|
  {
    if args == [] then ""
    else if |args| == 1 then Quoted(args[0])
    else Quoted(args[0]) + " " + QuotedAll(args[1..])
  }

  method AppendSlashes(wide: string, n: nat) returns (r: string)
    ensures r == wide + Slashes(n)
  {
    r := wide;
    for j := 0 to n
      invariant r + Slashes(n - j) == wide + Slashes(n)
    {
      assert Slashes(n - j) == "\\" + Slashes(n - j - 1);
      r := r + "\\";
    }
  }

  /** The nested quoting loops. */
  method ArgsToWide(arguments: seq<string>) returns (wide: string)
    ensures wide == QuotedAll(arguments)
    ensures forall pairs :: ParseArgs(wide, pairs) == arguments
  {
    wide := "";
    for i := 0 to |arguments|
      invariant wide == QuotedAll(arguments[..i])
    {
      QuotedAllSnoc(arguments[..i], arguments[i]);
      assert arguments[..i + 1] == arguments[..i] + [arguments[i]];
      if i > 0 {
        wide := wide + " ";
      }
      wide := AppendQuoted(wide, arguments[i]);
    }
    assert arguments[..|arguments|] == arguments;
    forall pairs ensures ParseArgs(wide, pairs) == arguments {
      QuoteRoundTrip(arguments, pairs);
    }
  }

  method AppendQuoted(wide0: string, arg: string) returns (wide: string)
    ensures wide == wide0 + Quoted(arg)
  {
    wide := wide0 + "\"";
    var backslashes := 0;
    for k := 0 to |arg|
      invariant wide + Escaped(arg[k..], backslashes) == wide0 + "\"" + Escaped(arg, 0)
    {
      var c := arg[k];
      assert arg[k..][0] == c && arg[k..][1..] == arg[k + 1..];
      ghost var before := wide;
      if c == '\\' {
        backslashes := backslashes + 1;
      } else {
        if c == '"' {
          // doubled, and one for the quote
          wide := AppendSlashes(wide, backslashes + 1);
        }
        backslashes := 0;
      }
      wide := wide + [c];
    }
    // doubled before the closing quote
    wide := AppendSlashes(wide, backslashes);
    wide := wide + "\"";
  }

  lemma {:induction false} QuotedAllSnoc(args: seq<string>, arg: string)
    ensures QuotedAll(args + [arg]) == QuotedAll(args) + (if args == [] then "" else " ") + Quoted(arg)
    decreases |args|
  {
    if |args| == 1 {
      assert (args + [arg])[1..] == [arg];
    } else if |args| > 1 {
      assert (args + [arg])[1..] == args[1..] + [arg];
      QuotedAllSnoc(args[1..], arg);
    }
  }

  // ---------------------------------------------------------------- parsing undoes quoting

  lemma {:induction false} ParseSlashes(k: nat, s: string, n: nat, quoted: bool, pairs: bool)
    ensures ParseArg(Slashes(k) + s, n, quoted, pairs) == ParseArg(s, n + k, quoted, pairs)
    decreases k
  {
    if k == 0 {
      assert Slashes(0) + s == s;
    } else {
      var t := Slashes(k) + s;
      assert t[0] == '\\' && t[1..] == Slashes(k - 1) + s;
      ParseSlashes(k - 1, s, n + 1, quoted, pairs);
    }
  }

  lemma {:induction false} SlashesAre(n: nat, i: nat)
    requires i < n
    ensures Slashes(n)[i] == '\\'
    decreases i
  {
    if i > 0 {
      SlashesAre(n - 1, i - 1);
    }
  }

  /**
   * The documented rules: 2n backslashes and a quote are n backslashes and switch quoting (unless
   * the quote begins a pair), 2n + 1 and a quote are n backslashes and the quote, backslashes before
   * anything else stand for themselves, and a blank ends the argument exactly outside quotes.
   */
  lemma SplitRules(n: nat, c: char, rest: string, quoted: bool, pairs: bool)
    ensures (pairs && quoted && rest != "" && rest[0] == '"') ||
      ParseArg(Slashes(2 * n) + ("\"" + rest), 0, quoted, pairs) ==
        Prepend(Slashes(n), ParseArg(rest, 0, !quoted, pairs))
    ensures ParseArg(Slashes(2 * n + 1) + ("\"" + rest), 0, quoted, pairs) ==
      Prepend(Slashes(n) + "\"", ParseArg(rest, 0, quoted, pairs))
    ensures c != '"' && c != '\\' ==>
      ParseArg(Slashes(n) + ([c] + rest), 0, quoted, pairs) ==
        if (c == ' ' || c == '\t') && !quoted then Parsed(Slashes(n), [c] + rest)
        else Prepend(Slashes(n) + [c], ParseArg(rest, 0, quoted, pairs))
  {
    hide ParseArg, Slashes;
    ParseSlashes(2 * n, "\"" + rest, 0, quoted, pairs);
    ParseSlashes(2 * n + 1, "\"" + rest, 0, quoted, pairs);
    ParseSlashes(n, [c] + rest, 0, quoted, pairs);
    SplitQuote(n, rest, quoted, pairs);
    if c != '"' && c != '\\' {
      SplitOther(n, c, rest, quoted, pairs);
    }
  }

  lemma SplitQuote(n: nat, rest: string, quoted: bool, pairs: bool)
    ensures (pairs && quoted && rest != "" && rest[0] == '"') ||
      ParseArg("\"" + rest, 2 * n, quoted, pairs) == Prepend(Slashes(n), ParseArg(rest, 0, !quoted, pairs))
    ensures ParseArg("\"" + rest, 2 * n + 1, quoted, pairs) ==
      Prepend(Slashes(n) + "\"", ParseArg(rest, 0, quoted, pairs))
  {
    hide Slashes;
    var t := "\"" + rest;
    assert t[1..] == rest;
    assert 2 * n / 2 == n && (2 * n + 1) / 2 == n && (2 * n + 1) % 2 == 1;
  }

  lemma SplitOther(n: nat, c: char, rest: string, quoted: bool, pairs: bool)
    requires c != '"' && c != '\\'
    ensures ParseArg([c] + rest, n, quoted, pairs) ==
        if (c == ' ' || c == '\t') && !quoted then Parsed(Slashes(n), [c] + rest)
        else Prepend(Slashes(n) + [c], ParseArg(rest, 0, quoted, pairs))
  {
    hide Slashes;
    assert ([c] + rest)[1..] == rest;
  }

  // What follows a quoted argument: nothing, or a blank.
  predicate Ends(s: string) {
    s == "" || Blank(s[0])
  }

  // One step of the parser inside quotes, for each kind of character: from what it makes of the
  // rest `u` to what it makes of the whole `t`.
  lemma StepSlash(t: string, u: string, n: nat, pairs: bool, p: Parsed)
    requires t == "\\" + u && ParseArg(u, n + 1, true, pairs) == p
    ensures ParseArg(t, n, true, pairs) == p
  {
    assert t[1..] == u;
  }

  lemma StepEscapedQuote(t: string, u: string, n: nat, pairs: bool, p: Parsed)
    requires t == "\"" + u && ParseArg(u, 0, true, pairs) == p
    ensures ParseArg(t, 2 * n + 1, true, pairs) == Prepend(Slashes(n) + "\"", p)
  {
    assert t[1..] == u;
    assert (2 * n + 1) % 2 == 1 && (2 * n + 1) / 2 == n;
  }

  lemma StepPlain(t: string, c: char, u: string, n: nat, pairs: bool, p: Parsed)
    requires c != '\\' && c != '"'
    requires t == [c] + u && ParseArg(u, 0, true, pairs) == p
    ensures ParseArg(t, n, true, pairs) == Prepend(Slashes(n) + [c], p)
  {
    assert t[1..] == u;
  }

  // Inside quotes, with n backslashes read and n written, the rest of the argument comes back.
  lemma {:induction false} ParseEscaped(t: string, arg: string, n: nat, after: string, pairs: bool)
    requires Ends(after) && t == Escaped(arg, n) + "\"" + after
    ensures ParseArg(t, n, true, pairs) == Parsed(Slashes(n) + arg, after)
    decreases |arg|, 1
  {
    if arg == "" {
      ParseClosing(n, after, pairs);
    } else if arg[0] == '\\' {
      hide ParseArg;
      var u := Escaped(arg[1..], n + 1) + "\"" + after;
      ParseEscaped(u, arg[1..], n + 1, after, pairs);
      EscapedSlashShape(t, arg, n, after);
      StepSlash(t, u, n, pairs, Parsed(Slashes(n) + arg, after));
    } else {
      ParseEscapedNext(t, arg, n, after, pairs);
    }
  }

  lemma ParseEscapedNext(t: string, arg: string, n: nat, after: string, pairs: bool)
    requires Ends(after) && t == Escaped(arg, n) + "\"" + after && arg != "" && arg[0] != '\\'
    ensures ParseArg(t, n, true, pairs) == Parsed(Slashes(n) + arg, after)
    decreases |arg|, 0
  {
    var u := Escaped(arg[1..], 0) + "\"" + after;
    ParseEscaped(u, arg[1..], 0, after, pairs);
    var p := Parsed(arg[1..], after);
    assert Parsed(Slashes(0) + arg[1..], after) == p;
    Rejoin(Slashes(n), arg, after);
    if arg[0] == '"' {
      EscapedQuoteShape(t, arg, n, after);
      ParseInnerQuote(t, Slashes(n + 1), "\"" + u, u, n, pairs, p);
    } else {
      EscapedPlainShape(t, arg, n, after);
      StepPlain(t, arg[0], u, n, pairs, p);
    }
  }

  lemma EscapedSlashShape(t: string, arg: string, n: nat, after: string)
    requires arg != "" && arg[0] == '\\' && t == Escaped(arg, n) + "\"" + after
    ensures t == "\\" + (Escaped(arg[1..], n + 1) + "\"" + after)
    ensures Slashes(n + 1) + arg[1..] == Slashes(n) + arg
  {
    hide Slashes, Escaped;
    SlashesSnoc(n);
    EscapedSlash(arg, n);
    SlashMoves(Slashes(n), arg);
    assert t == "\\" + Escaped(arg[1..], n + 1) + "\"" + after;
  }

  lemma EscapedSlash(arg: string, n: nat)
    requires arg != "" && arg[0] == '\\'
    ensures Escaped(arg, n) == "\\" + Escaped(arg[1..], n + 1)
  {
  }

  lemma SlashMoves(front: string, arg: string)
    requires arg != "" && arg[0] == '\\'
    ensures front + "\\" + arg[1..] == front + arg
  {
  }

  lemma Rejoin(front: string, arg: string, after: string)
    requires arg != ""
    ensures Prepend(front + [arg[0]], Parsed(arg[1..], after)) == Parsed(front + arg, after)
  {
    assert front + [arg[0]] + arg[1..] == front + arg;
  }

  lemma EscapedQuoteShape(t: string, arg: string, n: nat, after: string)
    requires arg != "" && arg[0] == '"' && t == Escaped(arg, n) + "\"" + after
    ensures t == Slashes(n + 1) + ("\"" + (Escaped(arg[1..], 0) + "\"" + after))
  {
  }

  lemma EscapedPlainShape(t: string, arg: string, n: nat, after: string)
    requires arg != "" && arg[0] != '"' && arg[0] != '\\' && t == Escaped(arg, n) + "\"" + after
    ensures t == [arg[0]] + (Escaped(arg[1..], 0) + "\"" + after)
  {
  }

  lemma ParseInnerQuote(t: string, front: string, v: string, u: string, n: nat, pairs: bool, p: Parsed)
    requires front == Slashes(n + 1) && v == "\"" + u && t == front + v && ParseArg(u, 0, true, pairs) == p
    ensures ParseArg(t, n, true, pairs) == Prepend(Slashes(n) + "\"", p)
  {
    ParseSlashes(n + 1, v, n, true, pairs);
    StepEscapedQuote(v, u, n, pairs, p);
  }

  lemma {:induction false} SlashesSnoc(n: nat)
    ensures Slashes(n + 1) == Slashes(n) + "\\"
    decreases n
  {
    if n > 0 {
      SlashesSnoc(n - 1);
    }
  }

  lemma ParseClosing(n: nat, after: string, pairs: bool)
    requires Ends(after)
    ensures ParseArg(Slashes(n) + "\"" + after, n, true, pairs) == Parsed(Slashes(n), after)
  {
    hide ParseArg, Slashes;
    var t := "\"" + after;
    assert Slashes(n) + "\"" + after == Slashes(n) + t;
    ParseSlashes(n, t, n, true, pairs);
    CloseQuote(t, n, after, pairs);
  }

  // The quote behind 2n backslashes ends the argument.
  lemma CloseQuote(t: string, n: nat, after: string, pairs: bool)
    requires Ends(after) && t == "\"" + after
    ensures ParseArg(t, 2 * n, true, pairs) == Parsed(Slashes(n), after)
  {
    hide Slashes;
    assert t[1..] == after;
    assert ParseArg(after, 0, false, pairs) == Parsed("", after);
    assert 2 * n / 2 == n && Slashes(n) + "" == Slashes(n);
  }

  lemma ParseQuoted(arg: string, after: string, pairs: bool)
    requires Ends(after)
    ensures ParseArg(Quoted(arg) + after, 0, false, pairs) == Parsed(arg, after)
  {
    var t := Quoted(arg) + after;
    assert t[0] == '"' && t[1..] == Escaped(arg, 0) + "\"" + after;
    ParseEscaped(t[1..], arg, 0, after, pairs);
    assert "" + arg == arg;
  }

  lemma ParseArgsFirst(s: string, arg: string, rest: string, pairs: bool)
    requires s != "" && s[0] == '"' && ParseArg(s, 0, false, pairs) == Parsed(arg, rest)
    ensures |rest| < |s| && ParseArgs(s, pairs) == [arg] + ParseArgs(rest, pairs)
  {
    ParseArgShrinks(s, pairs);
  }

  /** Any list of arguments survives quoting and splitting, under either rule for quote pairs. */
  lemma {:induction false} QuoteRoundTrip(args: seq<string>, pairs: bool)
    ensures ParseArgs(QuotedAll(args), pairs) == args
    decreases |args|
  {
    if args != [] {
      var s := QuotedAll(args);
      var after := if |args| == 1 then "" else " " + QuotedAll(args[1..]);
      assert s == Quoted(args[0]) + after;
      ParseQuoted(args[0], after, pairs);
      ParseArgsFirst(s, args[0], after, pairs);
      QuoteRoundTrip(args[1..], pairs);
      if |args| > 1 {
        assert after[0] == ' ' && after[1..] == QuotedAll(args[1..]);
      } else {
        assert args[1..] == [];
      }
      assert args == [args[0]] + args[1..];
    }
  }
}
