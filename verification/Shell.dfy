/** The shell's parser (sh.c). The text still to be parsed is the string behind the cursor *ps. */
module Shell {
  const MAXARGS: nat := 10

  // mode and fd follow from `input`; ">" and ">>" make the same command
  datatype Cmd =
    | Exec(argv: seq<string>)
    | Redir(cmd: Cmd, file: string, input: bool)
    | Pipe(left: Cmd, right: Cmd)
    | List(left: Cmd, right: Cmd)
    | Back(cmd: Cmd)

  datatype Result<T> = Ok(value: T, rest: string) | Panic(why: string)

  predicate White(c: char) {
    c in " \t\r\n\U{0B}"
  }

  predicate Symbol(c: char) {
    c in "<|>&;()"
  }

  predicate WordChar(c: char) {
    !White(c) && !Symbol(c) && c != '\0'
  }

  // Tokens ---------------------------------------------------------------------------------------

  function Skip(s: string): (r: string)
    ensures |r| <= |s| && (r != [] ==> !White(r[0]))
  {
    if s != [] && White(s[0]) then Skip(s[1..]) else s
  }

  function WordLen(s: string): (n: nat)
    ensures n <= |s| && (forall i | 0 <= i < n :: WordChar(s[i])) && (n < |s| ==> !WordChar(s[n]))
  {
    if s == [] || !WordChar(s[0]) then 0 else 1 + WordLen(s[1..])
  }

  // End is the token 0 at the end of the text.
  datatype Token = End | Sym(c: char) | Append | Word(w: string)

  function GetToken(s: string): (r: (Token, string))
    ensures |r.1| <= |s| && (r.0 != End ==> |r.1| < |s|)
    ensures r.0.Word? ==> r.0.w != [] && forall i | 0 <= i < |r.0.w| :: WordChar(r.0.w[i])
  {
    var t := Skip(s);
    if t == [] || t[0] == '\0' then (End, t)
    else if t[0] == '>' then
      if |t| > 1 && t[1] == '>' then (Append, Skip(t[2..])) else (Sym('>'), Skip(t[1..]))
    else if Symbol(t[0]) then (Sym(t[0]), Skip(t[1..]))
    else (Word(t[..WordLen(t)]), Skip(t[WordLen(t)..]))
  }

  predicate Peek(s: string, toks: string) {
    var t := Skip(s);
    t != [] && t[0] != '\0' && t[0] in toks
  }

  // The parser -------------------------------------------------------------------------------------

  datatype Redirection = Redirection(file: string, input: bool)

  function Wrap(c: Cmd, rs: seq<Redirection>): Cmd {
    if rs == [] then c
    else
      var r := rs[|rs| - 1];
      Redir(Wrap(c, rs[..|rs| - 1]), r.file, r.input)
  }

  /** parseredirs, as the redirections it puts round its command. */
  function ParseRedirs(s: string): (r: Result<seq<Redirection>>)
    ensures r.Ok? ==> |r.rest| <= |s|
    decreases |s|
  {
    if !Peek(s, "<>") then Ok([], Skip(s))
    else
      var tok := GetToken(Skip(s));
      var file := GetToken(tok.1);
      if !file.0.Word? then Panic("missing file for redirection")
      else
        var more := ParseRedirs(file.1);
        match more
        case Panic(why) => Panic(why)
        case Ok(rs, rest) => Ok([Redirection(file.0.w, tok.0 == Sym('<'))] + rs, rest)
  }

  /** The loop of parseexec. */
  function ParseArgs(argv: seq<string>, rs: seq<Redirection>, s: string): (r: Result<Cmd>)
    ensures r.Ok? ==> |r.rest| <= |s|
    decreases |s|
  {
    if Peek(s, "|)&;") then Ok(Wrap(Exec(argv), rs), Skip(s))
    else
      var tok := GetToken(Skip(s));
      if tok.0.End? then Ok(Wrap(Exec(argv), rs), tok.1)
      else if !tok.0.Word? then Panic("syntax")
      else if |argv| + 1 >= MAXARGS then Panic("too many args")
      else
        var more := ParseRedirs(tok.1);
        match more
        case Panic(why) => Panic(why)
        case Ok(rs', rest) => ParseArgs(argv + [tok.0.w], rs + rs', rest)
  }

  function ParseExec(s: string): (r: Result<Cmd>)
    ensures r.Ok? ==> |r.rest| <= |s|
    decreases |s|, 2
  {
    if Peek(s, "(") then ParseBlock(Skip(s))
    else
      match ParseRedirs(Skip(s))
      case Panic(why) => Panic(why)
      case Ok(rs, rest) => ParseArgs([], rs, rest)
  }

  function ParseBlock(s: string): (r: Result<Cmd>)
    ensures r.Ok? ==> |r.rest| <= |s|
    decreases |s|, 1
  {
    if !Peek(s, "(") then Panic("parseblock")
    else
      match ParseLine(GetToken(Skip(s)).1)
      case Panic(why) => Panic(why)
      case Ok(c, rest) =>
        if !Peek(rest, ")") then Panic("syntax - missing )")
        else
          match ParseRedirs(GetToken(Skip(rest)).1)
          case Panic(why) => Panic(why)
          case Ok(rs, rest') => Ok(Wrap(c, rs), rest')
  }

  function ParsePipe(s: string): (r: Result<Cmd>)
    ensures r.Ok? ==> |r.rest| <= |s|
    decreases |s|, 3
  {
    match ParseExec(s)
    case Panic(why) => Panic(why)
    case Ok(c, rest) =>
      if !Peek(rest, "|") then Ok(c, Skip(rest))
      else
        match ParsePipe(GetToken(Skip(rest)).1)
        case Panic(why) => Panic(why)
        case Ok(d, rest') => Ok(Pipe(c, d), rest')
  }

  /** The loop of parseline. */
  function Backs(c: Cmd, s: string): (r: (Cmd, string))
    ensures |r.1| <= |s|
    decreases |s|
  {
    if Peek(s, "&") then Backs(Back(c), GetToken(Skip(s)).1) else (c, Skip(s))
  }

  function ParseLine(s: string): (r: Result<Cmd>)
    ensures r.Ok? ==> |r.rest| <= |s|
    decreases |s|, 4
  {
    match ParsePipe(s)
    case Panic(why) => Panic(why)
    case Ok(c, rest) =>
      var b := Backs(c, rest);
      if !Peek(b.1, ";") then Ok(b.0, Skip(b.1))
      else
        match ParseLine(GetToken(Skip(b.1)).1)
        case Panic(why) => Panic(why)
        case Ok(d, rest') => Ok(List(b.0, d), rest')
  }

  function ParseCmd(s: string): Result<Cmd> {
    match ParseLine(s)
    case Panic(why) => Panic(why)
    case Ok(c, rest) => if Skip(rest) != [] then Panic("syntax") else Ok(c, [])
  }

  // Printing ------------------------------------------------------------------------------------------

  predicate GoodWord(w: string) {
    w != [] && forall i | 0 <= i < |w| :: WordChar(w[i])
  }

  /** A command the shell can hold: words are words, and at most MAXARGS - 1 of them. */
  predicate GoodCmd(c: Cmd) {
    match c
    case Exec(argv) => |argv| < MAXARGS && forall i | 0 <= i < |argv| :: GoodWord(argv[i])
    case Redir(d, file, _) => GoodCmd(d) && GoodWord(file)
    case Pipe(l, r) => GoodCmd(l) && GoodCmd(r)
    case List(l, r) => GoodCmd(l) && GoodCmd(r)
    case Back(d) => GoodCmd(d)
  }

  function Join(ws: seq<string>): string {
    if ws == [] then "" else if |ws| == 1 then ws[0] else ws[0] + " " + Join(ws[1..])
  }

  function Block(s: string): string {
    "(" + s + ")"
  }

  /** The command with every part in parentheses. */
  function Print(c: Cmd): string {
    match c
    case Exec(argv) => Join(argv)
    case Redir(d, file, input) => Block(Print(d)) + (if input then "<" else ">") + file
    case Pipe(l, r) => Block(Print(l)) + "|" + Block(Print(r))
    case List(l, r) => Block(Print(l)) + ";" + Block(Print(r))
    case Back(d) => Block(Print(d)) + "&"
  }

  // Parsing what was printed -------------------------------------------------------------------------

  /** No blank is next. */
  predicate Tight(t: string) {
    t == [] || !White(t[0])
  }

  /** The text ends here, or a symbol is next. */
  predicate Edge(t: string) {
    t == [] || Symbol(t[0])
  }

  lemma EdgeIs(t: string)
    requires Edge(t)
    ensures Tight(t) && Skip(t) == t && (t != [] ==> !WordChar(t[0]) && t[0] != '\0')
  {
  }

  lemma {:induction false} WordLenIs(w: string, t: string)
    requires (forall i | 0 <= i < |w| :: WordChar(w[i])) && (t == [] || !WordChar(t[0]))
    ensures WordLen(w + t) == |w|
  {
    if w == [] {
      assert w + t == t;
    } else {
      assert (w + t)[1..] == w[1..] + t;
      WordLenIs(w[1..], t);
    }
  }

  lemma WordToken(w: string, t: string)
    requires GoodWord(w) && (t == [] || !WordChar(t[0]))
    ensures Skip(w + t) == w + t && GetToken(w + t) == (Word(w), Skip(t))
  {
    assert (w + t)[0] == w[0] && WordChar(w[0]);
    WordLenIs(w, t);
    assert (w + t)[..|w|] == w && (w + t)[|w|..] == t;
  }

  lemma SymToken(c: char, t: string)
    requires Symbol(c) && Tight(t) && (c == '>' ==> t != [] && t[0] != '>')
    ensures Skip([c] + t) == [c] + t && GetToken([c] + t) == (Sym(c), t)
  {
    assert ([c] + t)[1..] == t;
  }

  /** The first character decides Peek. */
  lemma PeekIs(s: string, toks: string)
    requires Tight(s)
    ensures Skip(s) == s && (Peek(s, toks) <==> s != [] && s[0] != '\0' && s[0] in toks)
  {
  }

  lemma NoRedirs(t: string)
    requires Tight(t) && (t == [] || (t[0] != '<' && t[0] != '>'))
    ensures ParseRedirs(t) == Ok([], t)
  {
    PeekIs(t, "<>");
  }

  lemma OneRedir(file: string, input: bool, t: string)
    requires GoodWord(file) && Edge(t) && (t == [] || (t[0] != '<' && t[0] != '>'))
    ensures var s := [if input then '<' else '>'] + file + t;
      Tight(s) && ParseRedirs(s) == Ok([Redirection(file, input)], t)
  {
    var c := if input then '<' else '>';
    var s := [c] + file + t;
    assert s == [c] + (file + t);
    assert (file + t)[0] == file[0] && WordChar(file[0]);
    SymToken(c, file + t);
    PeekIs(s, "<>");
    EdgeIs(t);
    WordToken(file, t);
    NoRedirs(t);
    assert Peek(s, "<>") && s[0] == c;
    var none: seq<Redirection> := [];
    assert [Redirection(file, input)] + none == [Redirection(file, input)];
  }

  /** The last of the text of a line, or of the parentheses round it. */
  predicate Ends(t: string) {
    t == [] || t[0] == ')'
  }

  /** parseexec takes one word. */
  lemma ArgsStep(argv: seq<string>, w: string, more: string, next: string)
    requires |argv| + 1 < MAXARGS && GoodWord(w) && (more == [] || !WordChar(more[0])) && Skip(more) == next
    requires ParseRedirs(next) == Ok([], next)
    ensures Tight(w + more) && ParseArgs(argv, [], w + more) == ParseArgs(argv + [w], [], next)
  {
    hide ParseRedirs;
    var s := w + more;
    assert s[0] == w[0] && WordChar(w[0]);
    PeekIs(s, "|)&;");
    WordToken(w, more);
    var none: seq<Redirection> := [];
    assert none + none == none;
  }

  lemma ArgsEnd(argv: seq<string>, t: string)
    requires Ends(t)
    ensures Tight(t) && ParseArgs(argv, [], t) == Ok(Exec(argv), t)
  {
    PeekIs(t, "|)&;");
  }

  lemma JoinSplit(ws: seq<string>, t: string)
    requires ws != []
    ensures Join(ws) + t == ws[0] + if |ws| == 1 then t else " " + (Join(ws[1..]) + t)
    ensures |ws| == 1 ==> Join(ws[1..]) + t == t
  {
    if |ws| == 1 {
      assert ws[1..] == [] && Join(ws) == ws[0];
      JoinNone();
      assert "" + t == t;
    } else {
      Regroup(ws[0], Join(ws[1..]), t);
    }
  }

  lemma Regroup(a: string, b: string, t: string)
    ensures a + " " + b + t == a + (" " + (b + t))
  {
  }

  lemma {:induction false} ArgsPrinted(argv: seq<string>, ws: seq<string>, t: string)
    requires |argv| + |ws| < MAXARGS && Ends(t) && forall i | 0 <= i < |ws| :: GoodWord(ws[i])
    ensures Tight(Join(ws) + t) && ParseArgs(argv, [], Join(ws) + t) == Ok(Exec(argv + ws), t)
    decreases |ws|
  {
    hide ParseArgs, Join, Skip, ParseRedirs, GoodWord;
    EdgeIs(t);
    if ws == [] {
      JoinNone();
      assert Join(ws) + t == t && argv + ws == argv;
      ArgsEnd(argv, t);
    } else {
      var w, next := ws[0], Join(ws[1..]) + t;
      var more := if |ws| == 1 then t else " " + next;
      JoinSplit(ws, t);
      ArgsPrinted(argv + [w], ws[1..], t);
      assert argv + [w] + ws[1..] == argv + ws;
      if |ws| > 1 {
        FirstOf(ws[1..], t);
        SkipBlank(next);
      }
      NoRedirs(next);
      ArgsStep(argv, w, more, next);
    }
  }

  lemma JoinNone()
    ensures Join([]) == ""
  {
  }

  lemma SkipBlank(s: string)
    requires Tight(s)
    ensures Skip(" " + s) == s
  {
    assert (" " + s)[1..] == s;
  }

  lemma FirstOf(ws: seq<string>, t: string)
    requires ws != [] && GoodWord(ws[0])
    ensures Join(ws) + t != [] && (Join(ws) + t)[0] == ws[0][0] && WordChar(ws[0][0])
  {
  }

  /** Whatever is printed begins a command: not with a blank or a redirection. */
  lemma PrintStarts(c: Cmd, t: string)
    requires GoodCmd(c) && Ends(t)
    ensures Tight(Print(c) + t)
  {
    if c.Exec? {
      if c.argv == [] {
        assert Print(c) + t == t;
        EdgeIs(t);
      } else {
        FirstOf(c.argv, t);
      }
    }
  }

  /** Redirections that parse to rs and leave u. */
  predicate Redirects(t: string, rs: seq<Redirection>, u: string) {
    Tight(t) && ParseRedirs(t) == Ok(rs, u)
  }

  lemma {:induction false} ExecBlock(c: Cmd, t: string, rs: seq<Redirection>, u: string)
    requires GoodCmd(c) && Redirects(t, rs, u)
    requires ParseLine(Print(c) + (")" + t)) == Ok(c, ")" + t)
    ensures Block(Print(c)) + t == "(" + (Print(c) + (")" + t)) && Tight(Block(Print(c)) + t)
    ensures ParseExec(Block(Print(c)) + t) == Ok(Wrap(c, rs), u)
  {
    hide ParseLine, Print, ParseRedirs, Wrap;
    var inner, s := Print(c) + (")" + t), Block(Print(c)) + t;
    assert s == "(" + inner;
    PrintStarts(c, ")" + t);
    SymToken('(', inner);
    PeekIs(s, "(");
    assert Peek(s, "(") && ParseExec(s) == ParseBlock(s);
    SymToken(')', t);
    PeekIs(")" + t, ")");
    assert [')'] + t == ")" + t && ['('] + inner == "(" + inner;
  }

  /** A command that ends its line. */
  lemma LineEnd(s: string, c: Cmd, t: string)
    requires ParseExec(s) == Ok(c, t) && Ends(t)
    ensures ParsePipe(s) == Ok(c, t) && ParseLine(s) == Ok(c, t)
  {
    hide ParseExec;
    EdgeIs(t);
    PeekIs(t, "|");
    PeekIs(t, "&");
    PeekIs(t, ";");
  }

  lemma PipeLine(s: string, l: Cmd, r: Cmd, u: string, t: string)
    requires ParseExec(s) == Ok(l, "|" + u) && ParsePipe(u) == Ok(r, t) && Tight(u) && Ends(t)
    ensures ParseLine(s) == Ok(Pipe(l, r), t)
  {
    hide ParseExec;
    SymToken('|', u);
    assert ['|'] + u == "|" + u;
    PeekIs("|" + u, "|");
    EdgeIs(t);
    PeekIs(t, "&");
    PeekIs(t, ";");
    assert ParsePipe(s) == Ok(Pipe(l, r), t);
    hide ParsePipe;
  }

  lemma BackLine(s: string, c: Cmd, t: string)
    requires ParseExec(s) == Ok(c, "&" + t) && Ends(t)
    ensures ParseLine(s) == Ok(Back(c), t)
  {
    hide ParseExec;
    EdgeIs(t);
    SymToken('&', t);
    assert ['&'] + t == "&" + t;
    PeekIs("&" + t, "|");
    PeekIs("&" + t, "&");
    PeekIs(t, "&");
    PeekIs(t, ";");
    assert ParsePipe(s) == Ok(c, "&" + t);
    assert Backs(Back(c), t) == (Back(c), t);
  }

  lemma ListLine(s: string, l: Cmd, r: Cmd, u: string, t: string)
    requires ParseExec(s) == Ok(l, ";" + u) && ParseLine(u) == Ok(r, t) && Tight(u)
    ensures ParseLine(s) == Ok(List(l, r), t)
  {
    hide ParseExec;
    SymToken(';', u);
    assert [';'] + u == ";" + u;
    PeekIs(";" + u, "|");
    PeekIs(";" + u, "&");
    PeekIs(";" + u, ";");
    assert ParsePipe(s) == Ok(l, ";" + u);
  }

  lemma ExecLine(argv: seq<string>, t: string)
    requires GoodCmd(Exec(argv)) && Ends(t)
    ensures ParseLine(Print(Exec(argv)) + t) == Ok(Exec(argv), t)
  {
    hide ParseArgs, ParseRedirs, ParseLine, ParsePipe, Join;
    var s := Join(argv) + t;
    ArgsPrinted([], argv, t);
    assert [] + argv == argv;
    if argv == [] {
      JoinNone();
      assert s == t;
    } else {
      FirstOf(argv, t);
    }
    PeekIs(s, "(");
    NoRedirs(s);
    LineEnd(s, Exec(argv), t);
  }

  /** Parsing what is printed of a command gives the command back. */
  lemma {:induction false} LinePrinted(c: Cmd, t: string)
    requires GoodCmd(c) && Ends(t)
    ensures ParseLine(Print(c) + t) == Ok(c, t)
    decreases c, 2
  {
    hide ParseLine, ParsePipe, ParseExec, ParseRedirs, ParseArgs, Join, Skip, Print, GoodCmd;
    if c.Exec? {
      ExecLine(c.argv, t);
    } else if c.Redir? {
      RedirPrinted(c, t);
    } else if c.Back? {
      BackPrinted(c, t);
    } else {
      PairPrinted(c, t);
    }
  }

  lemma {:induction false} RedirPrinted(c: Cmd, t: string)
    requires c.Redir? && GoodCmd(c) && Ends(t)
    ensures ParseLine(Print(c) + t) == Ok(c, t)
    decreases c, 1
  {
    hide ParseLine, ParsePipe, ParseExec, ParseRedirs, ParseArgs, Join, Skip;
    var more := [if c.input then '<' else '>'] + c.file + t;
    EdgeIs(t);
    OneRedir(c.file, c.input, t);
    LinePrinted(c.cmd, ")" + more);
    ExecBlock(c.cmd, more, [Redirection(c.file, c.input)], t);
    assert Print(c) + t == Block(Print(c.cmd)) + more;
    WrapOne(c.cmd, c.file, c.input);
    LineEnd(Print(c) + t, c, t);
  }

  lemma WrapOne(c: Cmd, file: string, input: bool)
    ensures Wrap(c, [Redirection(file, input)]) == Redir(c, file, input)
  {
  }

  lemma {:induction false} BackPrinted(c: Cmd, t: string)
    requires c.Back? && GoodCmd(c) && Ends(t)
    ensures ParseLine(Print(c) + t) == Ok(c, t)
    decreases c, 1
  {
    hide ParseLine, ParsePipe, ParseExec, ParseRedirs, ParseArgs, Join, Skip;
    NoRedirs("&" + t);
    LinePrinted(c.cmd, ")" + ("&" + t));
    ExecBlock(c.cmd, "&" + t, [], "&" + t);
    assert Print(c) + t == Block(Print(c.cmd)) + ("&" + t);
    BackLine(Print(c) + t, c.cmd, t);
  }

  lemma {:induction false} PairPrinted(c: Cmd, t: string)
    requires (c.Pipe? || c.List?) && GoodCmd(c) && Ends(t)
    ensures ParseLine(Print(c) + t) == Ok(c, t)
    decreases c, 1
  {
    hide ParseLine, ParsePipe, ParseExec, ParseRedirs, ParseArgs, Join, Skip;
    var u := Block(Print(c.right)) + t;
    if c.Pipe? {
      Half(c, '|', t);
      PipeLine(Print(c) + t, c.left, c.right, u, t);
    } else {
      Half(c, ';', t);
      ListLine(Print(c) + t, c.left, c.right, u, t);
    }
  }

  /** Two commands in parentheses with a symbol between. */
  lemma {:induction false} Half(pair: Cmd, c: char, t: string)
    requires (pair.Pipe? || pair.List?) && GoodCmd(pair) && Ends(t) && c in "|;"
    ensures var l, r := pair.left, pair.right;
      var u := Block(Print(r)) + t; var s := Block(Print(l)) + [c] + Block(Print(r)) + t;
      && Tight(u) && ParsePipe(u) == Ok(r, t) && ParseLine(u) == Ok(r, t) && ParseExec(s) == Ok(l, [c] + u)
    decreases pair, 0
  {
    hide ParseLine, ParsePipe, ParseExec, ParseRedirs, ParseArgs, Join, Skip, Print;
    var l, r := pair.left, pair.right;
    var u := Block(Print(r)) + t;
    EdgeIs(t);
    NoRedirs(t);
    LinePrinted(r, ")" + t);
    ExecBlock(r, t, [], t);
    LineEnd(u, r, t);
    NoRedirs([c] + u);
    LinePrinted(l, ")" + ([c] + u));
    ExecBlock(l, [c] + u, [], [c] + u);
    assert Block(Print(l)) + [c] + Block(Print(r)) + t == Block(Print(l)) + ([c] + u);
  }

  /** parsecmd gives every command back from its printed form. */
  lemma {:induction false} RoundTrip(c: Cmd)
    requires GoodCmd(c)
    ensures ParseCmd(Print(c)) == Ok(c, [])
  {
    LinePrinted(c, []);
    assert Print(c) + [] == Print(c);
  }

  /** A command of MAXARGS words or more is refused. */
  lemma {:induction false} TooManyWords(argv: seq<string>, ws: seq<string>, t: string)
    requires |argv| < MAXARGS <= |argv| + |ws| && Ends(t) && forall i | 0 <= i < |ws| :: GoodWord(ws[i])
    ensures ParseArgs(argv, [], Join(ws) + t) == Panic("too many args")
    decreases |ws|
  {
    hide Join, Skip, ParseRedirs, ParseArgs;
    var w, next := ws[0], Join(ws[1..]) + t;
    var more := if |ws| == 1 then t else " " + next;
    EdgeIs(t);
    JoinSplit(ws, t);
    if |argv| + 1 == MAXARGS {
      OneTooMany(argv, w, more);
    } else {
      TooManyWords(argv + [w], ws[1..], t);
      FirstOf(ws[1..], t);
      SkipBlank(next);
      NoRedirs(next);
      ArgsStep(argv, w, more, next);
    }
  }

  lemma OneTooMany(argv: seq<string>, w: string, more: string)
    requires |argv| + 1 == MAXARGS && GoodWord(w) && (more == [] || !WordChar(more[0]))
    ensures ParseArgs(argv, [], w + more) == Panic("too many args")
  {
    hide ParseRedirs;
    var s := w + more;
    assert s[0] == w[0] && WordChar(w[0]);
    WordToken(w, more);
    PeekIs(s, "|)&;");
  }
}
