/** ExecStart= values: quoting an argument list for systemd, and reading it back. */
module SystemdCommand {
  import opened Text

  /** systemdQuote: three replacements over the whole string, one after the other. */
  function SystemdQuote(value: string): string {
    "\"" + Replaced(value) + "\""
  }

  function Replaced(value: string): string {
    ReplaceAll(ReplaceAll(ReplaceAll(value, "%", "%%"), "\\", "\\\\"), "\"", "\\\"")
  }

  /** The same escaping done character by character. */
  function EscapeChar(c: char): string {
    if c == '%' then "%%" else if c == '\\' then "\\\\" else if c == '"' then "\\\"" else [c]
  }

  function Escape(s: string): string {
    if s == [] then [] else EscapeChar(s[0]) + Escape(s[1..])
  }

  function JoinCommand(args: seq<string>): string {
    if args == [] then ""
    else if |args| == 1 then SystemdQuote(args[0])
    else SystemdQuote(args[0]) + " " + JoinCommand(args[1..])
  }

  function QuoteAll(args: seq<string>): seq<string> {
    seq(|args|, i requires 0 <= i < |args| => SystemdQuote(args[i]))
  }

  method JoinSystemdCommand(args: seq<string>) returns (line: string)
    ensures line == JoinCommand(args)
  {
    var quoted: seq<string> := [];
    var i := 0;
    while i < |args|
      invariant 0 <= i <= |args| && quoted == QuoteAll(args)[..i]
    {
      quoted := quoted + [SystemdQuote(args[i])];
      i := i + 1;
    }
    assert quoted == QuoteAll(args);
    line := Join(quoted, " ");
    JoinQuoted(args);
  }

  lemma {:induction false} JoinQuoted(args: seq<string>)
    ensures Join(QuoteAll(args), " ") == JoinCommand(args)
  {
    if |args| <= 1 {
    } else {
      JoinQuoted(args[1..]);
      assert QuoteAll(args)[1..] == QuoteAll(args[1..]);
    }
  }

  // ----- one pass instead of three ------------------------------------------------------

  lemma ReplaceHead(s: string, c: char, to: string)
    requires s != []
    ensures ReplaceAll(s, [c], to) == (if s[0] == c then to else [s[0]]) + ReplaceAll(s[1..], [c], to)
  {
    assert s[..1] == [s[0]];
  }

  function Substitute(x: char, c: char, to: string): string {
    if x == c then to else [x]
  }

  lemma ReplaceCons(x: char, s: string, c: char, to: string)
    ensures ReplaceAll([x] + s, [c], to) == Substitute(x, c, to) + ReplaceAll(s, [c], to)
  {
    ReplaceHead([x] + s, c, to);
    assert ([x] + s)[1..] == s;
  }

  lemma ConcatAssociates(a: string, b: string, c: string)
    ensures (a + b) + c == a + (b + c)
  {}

  lemma {:induction false} ReplaceConcat(a: string, b: string, c: char, to: string)
    ensures ReplaceAll(a + b, [c], to) == ReplaceAll(a, [c], to) + ReplaceAll(b, [c], to)
  {
    if a == [] {
      assert a + b == b && ReplaceAll(a, [c], to) == [];
    } else {
      var x, rest := a[0], a[1..];
      assert a == [x] + rest;
      ConcatAssociates([x], rest, b);
      ReplaceConcat(rest, b, c, to);
      ReplaceCons(x, rest + b, c, to);
      ReplaceCons(x, rest, c, to);
      ConcatAssociates(Substitute(x, c, to), ReplaceAll(rest, [c], to), ReplaceAll(b, [c], to));
    }
  }

  lemma ReplaceOne(x: char, c: char, to: string)
    ensures ReplaceAll([x], [c], to) == if x == c then to else [x]
  {
    ReplaceHead([x], c, to);
    assert [x][1..] == [];
    assert ReplaceAll([], [c], to) == [];
  }

  lemma ReplaceTwo(x: char, y: char, c: char, to: string)
    ensures ReplaceAll([x, y], [c], to) == (if x == c then to else [x]) + (if y == c then to else [y])
  {
    assert [x, y] == [x] + [y];
    ReplaceConcat([x], [y], c, to);
    ReplaceOne(x, c, to);
    ReplaceOne(y, c, to);
  }

  lemma ReplacedChar(x: char)
    ensures Replaced([x]) == EscapeChar(x)
  {
    ReplaceOne(x, '%', "%%");
    if x == '%' {
      ReplaceTwo('%', '%', '\\', "\\\\");
      ReplaceTwo('%', '%', '"', "\\\"");
    } else {
      ReplaceOne(x, '\\', "\\\\");
      if x == '\\' {
        ReplaceTwo('\\', '\\', '"', "\\\"");
      } else {
        ReplaceOne(x, '"', "\\\"");
      }
    }
  }

  lemma ReplacedConcat(a: string, b: string)
    ensures Replaced(a + b) == Replaced(a) + Replaced(b)
  {
    ReplaceConcat(a, b, '%', "%%");
    var a1, b1 := ReplaceAll(a, "%", "%%"), ReplaceAll(b, "%", "%%");
    ReplaceConcat(a1, b1, '\\', "\\\\");
    ReplaceConcat(ReplaceAll(a1, "\\", "\\\\"), ReplaceAll(b1, "\\", "\\\\"), '"', "\\\"");
  }

  /** The three successive replacements equal one escape per character. */
  lemma {:induction false} ReplacedIsEscape(s: string)
    ensures Replaced(s) == Escape(s)
  {
    if s == [] {
    } else {
      assert s == [s[0]] + s[1..];
      ReplacedConcat([s[0]], s[1..]);
      ReplacedChar(s[0]);
      ReplacedIsEscape(s[1..]);
    }
  }

  // ----- reading it back ----------------------------------------------------------------

  datatype Quoted = Quoted(value: string, rest: string)

  /** The value up to the closing quote, and what follows it. */
  function Unquote(s: string): Option<Quoted>
    decreases |s|
  {
    if s == [] then None
    else if s[0] == '"' then Some(Quoted([], s[1..]))
    else if s[0] == '\\' || s[0] == '%' then
      if |s| < 2 || (s[0] == '%' && s[1] != '%') then None
      else Prepend(s[1], Unquote(s[2..]))
    else Prepend(s[0], Unquote(s[1..]))
  }

  function Prepend(c: char, q: Option<Quoted>): Option<Quoted> {
    match q case None => None case Some(v) => Some(Quoted([c] + v.value, v.rest))
  }

  /** Quoted words separated by single spaces. */
  function ParseArgs(s: string): Option<seq<string>>
    decreases |s|
  {
    if s == [] || s[0] != '"' then None
    else
      var q := Unquote(s[1..]);
      if q.None? || |q.value.rest| >= |s| then None
      else if q.value.rest == [] then Some([q.value.value])
      else if q.value.rest[0] != ' ' then None
      else match ParseArgs(q.value.rest[1..])
           case None => None
           case Some(more) => Some([q.value.value] + more)
  }

  function ParseCommand(line: string): Option<seq<string>> {
    if line == "" then Some([]) else ParseArgs(line)
  }

  lemma UnquoteStep(c: char, tail: string)
    ensures Unquote(EscapeChar(c) + tail) == Prepend(c, Unquote(tail))
  {
    var s := EscapeChar(c) + tail;
    assert s[|EscapeChar(c)|..] == tail;
  }

  lemma {:induction false} UnquoteEscape(s: string, rest: string)
    ensures Unquote(Escape(s) + "\"" + rest) == Some(Quoted(s, rest))
  {
    var whole := Escape(s) + "\"" + rest;
    if s == [] {
      assert whole == ['"'] + rest;
      assert whole[1..] == rest;
    } else {
      UnquoteEscape(s[1..], rest);
      var tail := Escape(s[1..]) + "\"" + rest;
      assert whole == EscapeChar(s[0]) + tail;
      UnquoteStep(s[0], tail);
      assert s == [s[0]] + s[1..];
    }
  }

  lemma QuoteParses(arg: string, rest: string)
    ensures var s := SystemdQuote(arg) + rest;
            s != [] && s[0] == '"' && Unquote(s[1..]) == Some(Quoted(arg, rest)) && |rest| < |s|
  {
    ReplacedIsEscape(arg);
    var s := SystemdQuote(arg) + rest;
    assert s == ['"'] + (Escape(arg) + "\"" + rest);
    assert s[1..] == Escape(arg) + "\"" + rest;
    UnquoteEscape(arg, rest);
  }

  lemma {:induction false} ArgsRoundTrip(args: seq<string>)
    requires args != []
    ensures JoinCommand(args) != "" && ParseArgs(JoinCommand(args)) == Some(args)
  {
    if |args| == 1 {
      QuoteParses(args[0], "");
      assert SystemdQuote(args[0]) + "" == SystemdQuote(args[0]);
      assert args == [args[0]];
    } else {
      ArgsRoundTrip(args[1..]);
      var rest := " " + JoinCommand(args[1..]);
      QuoteParses(args[0], rest);
      assert JoinCommand(args) == SystemdQuote(args[0]) + rest;
      assert rest[1..] == JoinCommand(args[1..]);
      assert args == [args[0]] + args[1..];
    }
  }

  /** Every argument list is recovered exactly. */
  lemma CommandRoundTrip(args: seq<string>)
    ensures ParseCommand(JoinCommand(args)) == Some(args)
  {
    if args != [] { ArgsRoundTrip(args); }
  }

  /** Distinct argument lists give distinct ExecStart values. */
  lemma CommandInjective(a: seq<string>, b: seq<string>)
    requires JoinCommand(a) == JoinCommand(b)
    ensures a == b
  {
    CommandRoundTrip(a);
    CommandRoundTrip(b);
  }

  // ----- one line ---------------------------------------------------------------------

  lemma {:induction false} EscapeKeepsNewlines(s: string)
    ensures '\n' in Escape(s) <==> '\n' in s
  {
    if s == [] {
    } else {
      EscapeKeepsNewlines(s[1..]);
      assert s == [s[0]] + s[1..];
      assert '\n' in EscapeChar(s[0]) <==> s[0] == '\n';
    }
  }

  ghost predicate OnOneLine(args: seq<string>) {
    forall i :: 0 <= i < |args| ==> '\n' !in args[i]
  }

  lemma QuoteOnOneLine(arg: string)
    ensures '\n' in SystemdQuote(arg) <==> '\n' in arg
  {
    ReplacedIsEscape(arg);
    EscapeKeepsNewlines(arg);
  }

  /** The quoting leaves newlines alone: the ExecStart value stays on one line exactly if no argument
      holds a newline. */
  lemma {:induction false} OneLineIff(args: seq<string>)
    ensures '\n' !in JoinCommand(args) <==> OnOneLine(args)
  {
    if args == [] {
    } else {
      QuoteOnOneLine(args[0]);
      OneLineIff(args[1..]);
      assert args == [args[0]] + args[1..];
      assert OnOneLine(args) <==> '\n' !in args[0] && OnOneLine(args[1..]);
      if |args| > 1 {
        JoinSplits(args);
      }
    }
  }

  lemma JoinSplits(args: seq<string>)
    requires |args| > 1
    ensures '\n' in JoinCommand(args) <==> '\n' in SystemdQuote(args[0]) || '\n' in JoinCommand(args[1..])
  {
    assert '\n' !in " ";
  }
}
