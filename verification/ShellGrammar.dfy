/**
 * The command lines the shell accepts (sh.c), as a grammar: what is typed, with any spacing, and the command it means.
 *
 * The parser of Shell accepts a text exactly when the grammar has it, and gives the command it means there.
 */
module ShellGrammar {
  import opened Shell

  // A word, or a redirection with its file.
  datatype Piece = Arg(w: string) | To(arrow: Token, file: string)

  datatype Item = Simple(pieces: seq<Piece>) | Group(line: Line, redirs: seq<Piece>)

  // Items joined by "|"; then any number of "&"; then perhaps ";" and a line.
  datatype Pipeline = One(item: Item) | Bar(item: Item, rest: Pipeline)

  datatype Line = Line(pipe: Pipeline, amps: nat, more: More)

  datatype More = Nothing | Then(line: Line)

  // What is typed ---------------------------------------------------------------------------------

  predicate Blank(c: char) {
    c == ' ' || c == '\t' || c == '\r' || c == '\n' || c == '\U{0B}'
  }

  predicate Letter(c: char) {
    !Blank(c) && c !in ['<', '|', '>', '&', ';', '(', ')', '\0']
  }

  predicate Spelled(w: string) {
    w != [] && forall i | 0 <= i < |w| :: Letter(w[i])
  }

  predicate Blanks(g: string) {
    forall i | 0 <= i < |g| :: Blank(g[i])
  }

  predicate Arrow(t: Token) {
    t == Sym('<') || t == Sym('>') || t == Append
  }

  function PieceTokens(p: Piece): seq<Token> {
    match p
    case Arg(w) => [Word(w)]
    case To(arrow, file) => [arrow, Word(file)]
  }

  function PiecesTokens(ps: seq<Piece>): seq<Token> {
    if ps == [] then [] else PieceTokens(ps[0]) + PiecesTokens(ps[1..])
  }

  function ItemTokens(i: Item): seq<Token> {
    match i
    case Simple(ps) => PiecesTokens(ps)
    case Group(line, rs) => [Sym('(')] + LineTokens(line) + [Sym(')')] + PiecesTokens(rs)
  }

  function PipeTokens(p: Pipeline): seq<Token> {
    match p
    case One(i) => ItemTokens(i)
    case Bar(i, rest) => ItemTokens(i) + [Sym('|')] + PipeTokens(rest)
  }

  function Amps(n: nat): seq<Token> {
    if n == 0 then [] else [Sym('&')] + Amps(n - 1)
  }

  function LineTokens(l: Line): seq<Token> {
    PipeTokens(l.pipe) + Amps(l.amps) + MoreTokens(l.more)
  }

  function MoreTokens(m: More): seq<Token> {
    match m
    case Nothing => []
    case Then(l) => [Sym(';')] + LineTokens(l)
  }

  function Spelling(t: Token): string {
    match t
    case End => ""
    case Sym(c) => [c]
    case Append => ">>"
    case Word(w) => w
  }

  /** Two tokens that would run together without a blank between. */
  predicate Merges(a: Token, b: Token) {
    (a.Word? && b.Word?) || (a == Sym('>') && (b == Sym('>') || b == Append))
  }

  /** Blanks before each token, and after the last; at least one where tokens would run together. */
  predicate Spaced(toks: seq<Token>, gaps: seq<string>) {
    && |gaps| == |toks| + 1
    && (forall i | 0 <= i < |gaps| :: Blanks(gaps[i]))
    && (forall i | 0 < i < |toks| && Merges(toks[i - 1], toks[i]) :: gaps[i] != [])
  }

  function Typed(toks: seq<Token>, gaps: seq<string>): string
    requires |gaps| == |toks| + 1
  {
    if toks == [] then gaps[0] else gaps[0] + (Spelling(toks[0]) + Typed(toks[1..], gaps[1..]))
  }

  // What it means ---------------------------------------------------------------------------------

  function Args(ps: seq<Piece>): seq<string> {
    if ps == [] then []
    else if ps[0].Arg? then [ps[0].w] + Args(ps[1..])
    else Args(ps[1..])
  }

  /** The redirections among ps round c, the last one outermost. */
  function Around(c: Cmd, ps: seq<Piece>): Cmd
    decreases |ps|
  {
    if ps == [] then c
    else if ps[0].To? then Around(Redir(c, ps[0].file, ps[0].arrow == Sym('<')), ps[1..])
    else Around(c, ps[1..])
  }

  function ItemMeans(i: Item): Cmd {
    match i
    case Simple(ps) => Around(Exec(Args(ps)), ps)
    case Group(line, rs) => Around(LineMeans(line), rs)
  }

  function PipeMeans(p: Pipeline): Cmd {
    match p
    case One(i) => ItemMeans(i)
    case Bar(i, rest) => Pipe(ItemMeans(i), PipeMeans(rest))
  }

  function InBack(c: Cmd, n: nat): Cmd {
    if n == 0 then c else Back(InBack(c, n - 1))
  }

  function LineMeans(l: Line): Cmd {
    var c := InBack(PipeMeans(l.pipe), l.amps);
    match l.more
    case Nothing => c
    case Then(m) => List(c, LineMeans(m))
  }

  predicate GoodPiece(p: Piece) {
    match p
    case Arg(w) => Spelled(w)
    case To(arrow, file) => Arrow(arrow) && Spelled(file)
  }

  /** Words are words, a simple command has at most nine, and only redirections follow a parenthesis. */
  predicate GoodItem(i: Item) {
    match i
    case Simple(ps) => |Args(ps)| < 10 && forall k | 0 <= k < |ps| :: GoodPiece(ps[k])
    case Group(line, rs) => GoodLine(line) && forall k | 0 <= k < |rs| :: GoodPiece(rs[k]) && rs[k].To?
  }

  predicate GoodPipe(p: Pipeline) {
    match p
    case One(i) => GoodItem(i)
    case Bar(i, rest) => GoodItem(i) && GoodPipe(rest)
  }

  predicate GoodLine(l: Line) {
    GoodPipe(l.pipe) && match l.more case Nothing => true case Then(m) => GoodLine(m)
  }

  // Reading tokens --------------------------------------------------------------------------------

  /** The tokens gettoken gives one after the other, and where it stops. */
  function Lex(s: string): (r: (seq<Token>, string))
    decreases |s|
  {
    var g := GetToken(s);
    if g.0.End? then ([], g.1) else var r := Lex(g.1); ([g.0] + r.0, r.1)
  }

  /** Behind these tokens of s there is rest. */
  predicate Reads(s: string, toks: seq<Token>, rest: string) {
    Lex(s).0 == toks + Lex(rest).0 && Lex(s).1 == Lex(rest).1
  }

  lemma {:induction false} SkipTwice(s: string)
    ensures Skip(Skip(s)) == Skip(s)
  {
  }

  lemma LexSkip(s: string)
    ensures GetToken(Skip(s)) == GetToken(s) && Lex(Skip(s)) == Lex(s)
  {
    SkipTwice(s);
  }

  /** One call of gettoken. */
  lemma LexGet(s: string)
    ensures Lex(s).0 == [] <==> GetToken(s).0.End?
    ensures Lex(s).0 != [] ==> Lex(s).0[0] == GetToken(s).0 && Reads(s, [Lex(s).0[0]], GetToken(s).1)
    ensures GetToken(s).0.Word? ==> Spelled(GetToken(s).0.w)
    ensures GetToken(s).0.Sym? ==> Symbol(GetToken(s).0.c)
  {
  }

  lemma ReadsOne(s: string, m: string)
    requires Lex(s).0 != [] && Reads(s, [Lex(s).0[0]], m)
    ensures Lex(s).0 == [Lex(s).0[0]] + Lex(m).0
  {
  }

  function FirstChar(t: Token): char {
    match t
    case End => '\0'
    case Sym(c) => c
    case Append => '>'
    case Word(w) => if w == [] then '\0' else w[0]
  }

  /** peek looks at the first character of the next token. */
  lemma PeekFirst(s: string, toks: string)
    ensures Peek(s, toks) <==> Lex(s).0 != [] && FirstChar(Lex(s).0[0]) in toks
  {
  }

  /** What the next token is, by its first character. */
  lemma NextIs(s: string)
    ensures Lex(s).0 != [] ==>
      var t := Lex(s).0[0];
      && (Peek(s, "<>") <==> Arrow(t)) && (Peek(s, "(") <==> t == Sym('(')) && (Peek(s, ")") <==> t == Sym(')'))
      && (Peek(s, "|") <==> t == Sym('|')) && (Peek(s, "&") <==> t == Sym('&')) && (Peek(s, ";") <==> t == Sym(';'))
      && (Peek(s, "|)&;") <==> Stops(t))
    ensures Lex(s).0 == [] ==> forall toks :: !Peek(s, toks)
  {
    LexGet(s);
    forall toks ensures Peek(s, toks) <==> Lex(s).0 != [] && FirstChar(Lex(s).0[0]) in toks {
      PeekFirst(s, toks);
    }
  }

  predicate Stops(t: Token) {
    t == Sym('|') || t == Sym(')') || t == Sym('&') || t == Sym(';')
  }

  lemma ReadsMore(s: string, a: seq<Token>, m: string, b: seq<Token>, rest: string)
    requires Reads(s, a, m) && Reads(m, b, rest)
    ensures Reads(s, a + b, rest)
  {
    assert a + (b + Lex(rest).0) == a + b + Lex(rest).0;
  }

  lemma ReadsNone(s: string)
    ensures Reads(s, [], s) && Reads(s, [], Skip(s))
  {
    LexSkip(s);
  }

  /** When these tokens are read, what is behind them is left. */
  lemma ReadsRest(s: string, toks: seq<Token>, rest: string, u: seq<Token>)
    requires Reads(s, toks, rest) && Lex(s).0 == toks + u
    ensures Lex(rest).0 == u
  {
    assert (toks + u)[|toks|..] == u;
  }

  // Redirections ----------------------------------------------------------------------------------

  predicate Redirs(ps: seq<Piece>) {
    forall k | 0 <= k < |ps| :: GoodPiece(ps[k]) && ps[k].To?
  }

  function Reds(ps: seq<Piece>): seq<Redirection> {
    if ps == [] then []
    else if ps[0].To? then [Redirection(ps[0].file, ps[0].arrow == Sym('<'))] + Reds(ps[1..])
    else Reds(ps[1..])
  }

  predicate NoArrow(u: seq<Token>) {
    u == [] || !Arrow(u[0])
  }

  /** One redirection read by parseredirs, or the end of them. */
  lemma RedirStep(s: string)
    ensures Lex(s).0 == [] || !Arrow(Lex(s).0[0]) ==> ParseRedirs(s) == Ok([], Skip(s))
    ensures Lex(s).0 != [] && Arrow(Lex(s).0[0]) ==>
      var toks := Lex(s).0; var next := GetToken(GetToken(Skip(s)).1);
      && |next.1| < |s| && next.0 == (if |toks| > 1 then toks[1] else End)
      && (next.0.Word? ==> Reads(s, [toks[0], next.0], next.1) && Spelled(next.0.w))
      && ParseRedirs(s) ==
           if !next.0.Word? then Panic("missing file for redirection")
           else if ParseRedirs(next.1).Panic? then ParseRedirs(next.1)
           else Ok([Redirection(next.0.w, toks[0] == Sym('<'))] + ParseRedirs(next.1).value, ParseRedirs(next.1).rest)
  {
    hide Lex, GetToken, Skip, Peek, Reads;
    NextIs(s);
    LexSkip(s);
    LexGet(s);
    if Lex(s).0 != [] && Arrow(Lex(s).0[0]) {
      var m := GetToken(Skip(s)).1;
      LexGet(m);
      ReadsOne(s, m);
      if GetToken(m).0.Word? {
        ReadsMore(s, [Lex(s).0[0]], m, [Lex(m).0[0]], GetToken(m).1);
        assert [Lex(s).0[0]] + [Lex(m).0[0]] == [Lex(s).0[0], GetToken(m).0];
      }
    }
  }

  lemma {:induction false} RedirsGive(s: string, rs: seq<Piece>, u: seq<Token>)
    requires Redirs(rs) && Lex(s).0 == PiecesTokens(rs) + u && NoArrow(u)
    ensures var r := ParseRedirs(s); r.Ok? && r.value == Reds(rs) && Reads(s, PiecesTokens(rs), r.rest)
    decreases |rs|
  {
    hide ParseRedirs, Reads, Lex;
    RedirStep(s);
    if rs == [] {
      assert Lex(s).0 == u;
      ReadsNone(s);
    } else {
      var toks, next := Lex(s).0, GetToken(GetToken(Skip(s)).1);
      assert toks == [rs[0].arrow, Word(rs[0].file)] + (PiecesTokens(rs[1..]) + u);
      ReadsRest(s, [toks[0], next.0], next.1, PiecesTokens(rs[1..]) + u);
      RedirsGive(next.1, rs[1..], u);
      ReadsMore(s, PieceTokens(rs[0]), next.1, PiecesTokens(rs[1..]), ParseRedirs(next.1).rest);
    }
  }

  lemma {:induction false} RedirsCome(s: string) returns (rs: seq<Piece>)
    requires ParseRedirs(s).Ok?
    ensures Redirs(rs) && ParseRedirs(s).value == Reds(rs) && Reads(s, PiecesTokens(rs), ParseRedirs(s).rest)
    ensures NoArrow(Lex(ParseRedirs(s).rest).0)
    decreases |s|
  {
    hide ParseRedirs, Reads, Lex;
    RedirStep(s);
    if Lex(s).0 == [] || !Arrow(Lex(s).0[0]) {
      ReadsNone(s);
      LexSkip(s);
      rs := [];
    } else {
      var toks, next := Lex(s).0, GetToken(GetToken(Skip(s)).1);
      var more := RedirsCome(next.1);
      var p := To(toks[0], next.0.w);
      rs := [p] + more;
      assert rs[1..] == more;
      ReadsMore(s, PieceTokens(p), next.1, PiecesTokens(more), ParseRedirs(next.1).rest);
    }
  }

  // Simple commands -------------------------------------------------------------------------------

  /** What may stand behind an item. */
  predicate Follows(u: seq<Token>) {
    u == [] || Stops(u[0])
  }

  /** How many redirections ps starts with. */
  function Leading(ps: seq<Piece>): (n: nat)
    ensures n <= |ps| && (forall k | 0 <= k < n :: ps[k].To?) && (n < |ps| ==> ps[n].Arg?)
  {
    if ps == [] || ps[0].Arg? then 0 else 1 + Leading(ps[1..])
  }

  lemma {:induction false} Concat(ps: seq<Piece>, qs: seq<Piece>)
    ensures PiecesTokens(ps + qs) == PiecesTokens(ps) + PiecesTokens(qs)
    ensures Args(ps + qs) == Args(ps) + Args(qs) && Reds(ps + qs) == Reds(ps) + Reds(qs)
    decreases |ps|
  {
    if ps == [] {
      assert ps + qs == qs;
    } else {
      assert (ps + qs)[1..] == ps[1..] + qs;
      Concat(ps[1..], qs);
    }
  }

  lemma {:induction false} NoArgs(ps: seq<Piece>)
    requires forall k | 0 <= k < |ps| :: ps[k].To?
    ensures Args(ps) == []
    decreases |ps|
  {
    if ps != [] {
      NoArgs(ps[1..]);
    }
  }

  /** ps split behind the redirections it starts with. */
  lemma Split(ps: seq<Piece>, n: nat)
    requires n == Leading(ps)
    ensures PiecesTokens(ps) == PiecesTokens(ps[..n]) + PiecesTokens(ps[n..])
    ensures Args(ps) == Args(ps[n..]) && Reds(ps) == Reds(ps[..n]) + Reds(ps[n..])
  {
    assert ps == ps[..n] + ps[n..];
    Concat(ps[..n], ps[n..]);
    NoArgs(ps[..n]);
  }

  /** One round of parseexec's loop. */
  lemma ArgStep(argv: seq<string>, rs: seq<Redirection>, s: string)
    ensures Follows(Lex(s).0) ==>
      var r := ParseArgs(argv, rs, s);
      r.Ok? && r.value == Wrap(Exec(argv), rs) && Reads(s, [], r.rest)
    ensures !Follows(Lex(s).0) ==>
      var t, m := Lex(s).0[0], GetToken(Skip(s)).1;
      && |m| < |s| && Reads(s, [t], m) && (t.Word? ==> Spelled(t.w))
      && ParseArgs(argv, rs, s) ==
           if !t.Word? then Panic("syntax")
           else if |argv| + 1 >= MAXARGS then Panic("too many args")
           else if ParseRedirs(m).Panic? then Panic(ParseRedirs(m).why)
           else ParseArgs(argv + [t.w], rs + ParseRedirs(m).value, ParseRedirs(m).rest)
  {
    hide Lex, GetToken, Skip, Peek, Reads, ParseRedirs, Wrap;
    NextIs(s);
    LexSkip(s);
    LexGet(s);
    ReadsNone(s);
    if Lex(s).0 == [] {
      EndRead(s);
    }
  }

  lemma EndRead(s: string)
    requires Lex(s).0 == []
    ensures Reads(s, [], GetToken(Skip(s)).1)
  {
    LexSkip(s);
    var t := GetToken(s).1;
    assert t == Skip(s);
    assert GetToken(s).0.End?;
  }

  predicate Pieces(ps: seq<Piece>) {
    forall k | 0 <= k < |ps| :: GoodPiece(ps[k])
  }

  lemma NoArrowHere(ps: seq<Piece>, u: seq<Token>)
    requires Follows(u) && (ps == [] || ps[0].Arg?)
    ensures NoArrow(PiecesTokens(ps) + u)
  {
    if ps == [] {
      assert PiecesTokens(ps) + u == u;
    }
  }

  /** parseredirs takes the redirections that pieces start with. */
  lemma LeadingGive(s: string, ps: seq<Piece>, u: seq<Token>)
    requires Pieces(ps) && Lex(s).0 == PiecesTokens(ps) + u && Follows(u)
    ensures var n, r := Leading(ps), ParseRedirs(s);
      && r.Ok? && r.value == Reds(ps[..n]) && Reads(s, PiecesTokens(ps[..n]), r.rest)
      && Lex(r.rest).0 == PiecesTokens(ps[n..]) + u
      && PiecesTokens(ps) == PiecesTokens(ps[..n]) + PiecesTokens(ps[n..])
      && Args(ps) == Args(ps[n..]) && Reds(ps) == Reds(ps[..n]) + Reds(ps[n..])
  {
    hide ParseRedirs, Reads, Lex, PiecesTokens, Args, Reds;
    var n := Leading(ps);
    Split(ps, n);
    NoArrowHere(ps[n..], u);
    assert Lex(s).0 == PiecesTokens(ps[..n]) + (PiecesTokens(ps[n..]) + u);
    RedirsGive(s, ps[..n], PiecesTokens(ps[n..]) + u);
    ReadsRest(s, PiecesTokens(ps[..n]), ParseRedirs(s).rest, PiecesTokens(ps[n..]) + u);
  }

  lemma FirstArg(ps: seq<Piece>, u: seq<Token>)
    requires ps != [] && ps[0].Arg? && Pieces(ps)
    ensures PiecesTokens(ps) == [Word(ps[0].w)] + PiecesTokens(ps[1..]) && Spelled(ps[0].w) && Pieces(ps[1..])
    ensures PiecesTokens(ps) + u == [Word(ps[0].w)] + (PiecesTokens(ps[1..]) + u)
    ensures Args(ps) == [ps[0].w] + Args(ps[1..]) && Reds(ps) == Reds(ps[1..])
  {
  }

  lemma NoPieces(u: seq<Token>, argv: seq<string>, rs: seq<Redirection>)
    ensures PiecesTokens([]) + u == u && argv + Args([]) == argv && rs + Reds([]) == rs
  {
  }

  lemma Regroup3<T>(a: seq<T>, b: seq<T>, c: seq<T>)
    ensures a + b + c == a + (b + c)
  {
  }

  lemma {:induction false} ArgsGive(argv: seq<string>, rs: seq<Redirection>, s: string, ps: seq<Piece>, u: seq<Token>)
    requires Pieces(ps) && (ps == [] || ps[0].Arg?) && |argv| + |Args(ps)| < MAXARGS
    requires Lex(s).0 == PiecesTokens(ps) + u && Follows(u)
    ensures var r := ParseArgs(argv, rs, s);
      r.Ok? && r.value == Wrap(Exec(argv + Args(ps)), rs + Reds(ps)) && Reads(s, PiecesTokens(ps), r.rest)
    decreases |ps|
  {
    hide ParseArgs, ParseRedirs, Reads, Lex, Wrap, GetToken, Skip, PiecesTokens, Args, Reds, GoodPiece;
    ArgStep(argv, rs, s);
    NoPieces(u, argv, rs);
    if ps != [] {
      FirstArg(ps, u);
      var w, tail, m := ps[0].w, ps[1..], GetToken(Skip(s)).1;
      var n := Leading(tail);
      ReadsRest(s, [Word(w)], m, PiecesTokens(tail) + u);
      LeadingGive(m, tail, u);
      var rest, rs' := ParseRedirs(m).rest, rs + Reds(tail[..n]);
      ArgsGive(argv + [w], rs', rest, tail[n..], u);
      Regroup3(argv, [w], Args(tail[n..]));
      Regroup3(rs, Reds(tail[..n]), Reds(tail[n..]));
      var last := ParseArgs(argv + [w], rs', rest).rest;
      ReadsMore(m, PiecesTokens(tail[..n]), rest, PiecesTokens(tail[n..]), last);
      ReadsMore(s, [Word(w)], m, PiecesTokens(tail), last);
    }
  }

  lemma {:induction false} ArgsCome(argv: seq<string>, rs: seq<Redirection>, s: string) returns (ps: seq<Piece>)
    requires ParseArgs(argv, rs, s).Ok? && |argv| < MAXARGS
    ensures Pieces(ps) && (ps == [] || ps[0].Arg?) && |argv| + |Args(ps)| < MAXARGS
    ensures ParseArgs(argv, rs, s).value == Wrap(Exec(argv + Args(ps)), rs + Reds(ps))
    ensures Reads(s, PiecesTokens(ps), ParseArgs(argv, rs, s).rest)
    decreases |s|
  {
    hide ParseArgs, ParseRedirs, Reads, Lex, Wrap, GetToken, Skip;
    ArgStep(argv, rs, s);
    if Follows(Lex(s).0) {
      ps := [];
      assert argv + Args(ps) == argv && rs + Reds(ps) == rs;
    } else {
      var w, m := Lex(s).0[0].w, GetToken(Skip(s)).1;
      var tos := RedirsCome(m);
      var rest := ParseRedirs(m).rest;
      var more := ArgsCome(argv + [w], rs + Reds(tos), rest);
      ps := [Arg(w)] + (tos + more);
      assert ps[1..] == tos + more;
      Concat(tos, more);
      NoArgs(tos);
      assert argv + [w] + Args(more) == argv + Args(ps);
      assert rs + Reds(tos) + Reds(more) == rs + Reds(ps);
      var last := ParseArgs(argv + [w], rs + Reds(tos), rest).rest;
      ReadsMore(m, PiecesTokens(tos), rest, PiecesTokens(more), last);
      ReadsMore(s, [Word(w)], m, PiecesTokens(tos + more), last);
    }
  }

  lemma {:induction false} WrapIs(c: Cmd, ps: seq<Piece>)
    ensures Wrap(c, Reds(ps)) == Around(c, ps)
    decreases |ps|
  {
    if ps != [] {
      if ps[0].To? {
        var r := Redirection(ps[0].file, ps[0].arrow == Sym('<'));
        WrapFirst(c, r, Reds(ps[1..]));
        WrapIs(Redir(c, r.file, r.input), ps[1..]);
      } else {
        WrapIs(c, ps[1..]);
      }
    }
  }

  lemma {:induction false} WrapFirst(c: Cmd, r: Redirection, rs: seq<Redirection>)
    ensures Wrap(c, [r] + rs) == Wrap(Redir(c, r.file, r.input), rs)
    decreases |rs|
  {
    if rs == [] {
      assert [r] + rs == [r] && [r][..0] == [];
      assert Wrap(c, [r][..0]) == c;
    } else {
      assert ([r] + rs)[..|rs|] == [r] + rs[..|rs| - 1];
      WrapFirst(c, r, rs[..|rs| - 1]);
    }
  }

  lemma NotGroup(s: string, ps: seq<Piece>, u: seq<Token>)
    requires Pieces(ps) && Lex(s).0 == PiecesTokens(ps) + u && Follows(u)
    ensures !Peek(s, "(")
  {
    hide Peek;
    NextIs(s);
    if ps == [] {
      assert Lex(s).0 == u;
    }
  }

  /** The simple commands parseexec reads, and what they mean. */
  lemma SimpleGive(s: string, ps: seq<Piece>, u: seq<Token>)
    requires GoodItem(Simple(ps)) && Lex(s).0 == PiecesTokens(ps) + u && Follows(u)
    ensures var r := ParseExec(s); r.Ok? && r.value == ItemMeans(Simple(ps)) && Reads(s, PiecesTokens(ps), r.rest)
  {
    hide ParseArgs, ParseRedirs, ParseBlock, Reads, Lex, Wrap, Around, GetToken, Skip, Peek, PiecesTokens, Args, Reds;
    NotGroup(s, ps, u);
    LexSkip(s);
    var n := Leading(ps);
    LeadingGive(Skip(s), ps, u);
    var m := ParseRedirs(Skip(s)).rest;
    ArgsGive([], Reds(ps[..n]), m, ps[n..], u);
    assert [] + Args(ps[n..]) == Args(ps);
    WrapIs(Exec(Args(ps)), ps);
    ReadsMore(Skip(s), PiecesTokens(ps[..n]), m, PiecesTokens(ps[n..]), ParseExec(s).rest);
    ReadsSkip(s, PiecesTokens(ps), ParseExec(s).rest);
  }

  lemma ReadsSkip(s: string, toks: seq<Token>, rest: string)
    ensures Reads(Skip(s), toks, rest) <==> Reads(s, toks, rest)
  {
    LexSkip(s);
  }

  lemma SimpleCome(s: string) returns (ps: seq<Piece>)
    requires ParseExec(s).Ok? && !Peek(s, "(")
    ensures GoodItem(Simple(ps)) && ParseExec(s).value == ItemMeans(Simple(ps))
    ensures Reads(s, PiecesTokens(ps), ParseExec(s).rest)
  {
    hide ParseArgs, ParseRedirs, ParseBlock, Reads, Lex, Wrap, Around, GetToken, Skip, Peek;
    var tos := RedirsCome(Skip(s));
    var m := ParseRedirs(Skip(s)).rest;
    var more := ArgsCome([], Reds(tos), m);
    ps := tos + more;
    Concat(tos, more);
    NoArgs(tos);
    assert [] + Args(more) == Args(ps);
    WrapIs(Exec(Args(ps)), ps);
    ReadsMore(Skip(s), PiecesTokens(tos), m, PiecesTokens(more), ParseExec(s).rest);
    ReadsSkip(s, PiecesTokens(ps), ParseExec(s).rest);
  }

  // Lines -----------------------------------------------------------------------------------------

  predicate At(s: string, t: Token) {
    Lex(s).0 != [] && Lex(s).0[0] == t
  }

  /** A symbol, skipped. */
  lemma SymStep(s: string, c: char)
    requires At(s, Sym(c))
    ensures var m := GetToken(Skip(s)).1; |m| < |s| && Reads(s, [Sym(c)], m) && m == GetToken(Skip(Skip(s))).1
  {
    hide Lex, GetToken, Skip, Reads;
    LexSkip(s);
    LexGet(s);
    SkipTwice(s);
  }

  /** parseexec at a parenthesis: parseblock. */
  lemma BlockStep(s: string)
    requires At(s, Sym('('))
    ensures var m := GetToken(Skip(s)).1; var l := ParseLine(m);
      && |m| < |s| && Reads(s, [Sym('(')], m)
      && ParseExec(s) ==
           if l.Panic? then Panic(l.why)
           else if !At(l.rest, Sym(')')) then Panic("syntax - missing )")
           else
             var rs := ParseRedirs(GetToken(Skip(l.rest)).1);
             if rs.Panic? then Panic(rs.why) else Ok(Wrap(l.value, rs.value), rs.rest)
  {
    hide Lex, GetToken, Skip, Reads, Peek, ParseLine, ParseRedirs, Wrap;
    SymStep(s, '(');
    NextIs(s);
    LexSkip(s);
    NextIs(Skip(s));
    var l := ParseLine(GetToken(Skip(s)).1);
    if l.Ok? {
      NextIs(l.rest);
    }
  }

  lemma PipeStep(s: string)
    requires ParseExec(s).Ok?
    ensures var i := ParseExec(s); var p := ParsePipe(GetToken(Skip(i.rest)).1);
      ParsePipe(s) ==
        if !At(i.rest, Sym('|')) then Ok(i.value, Skip(i.rest))
        else if p.Panic? then p else Ok(Pipe(i.value, p.value), p.rest)
  {
    hide Lex, GetToken, Skip, Peek, ParseExec;
    NextIs(ParseExec(s).rest);
  }

  lemma BacksStep(c: Cmd, s: string)
    ensures Backs(c, s) == if At(s, Sym('&')) then Backs(Back(c), GetToken(Skip(s)).1) else (c, Skip(s))
  {
    hide Lex, GetToken, Skip, Peek;
    NextIs(s);
  }

  lemma LineStep(s: string)
    requires ParsePipe(s).Ok?
    ensures var b := Backs(ParsePipe(s).value, ParsePipe(s).rest); var l := ParseLine(GetToken(Skip(b.1)).1);
      ParseLine(s) ==
        if !At(b.1, Sym(';')) then Ok(b.0, Skip(b.1))
        else if l.Panic? then l else Ok(List(b.0, l.value), l.rest)
  {
    hide Lex, GetToken, Skip, Peek, ParsePipe, Backs;
    NextIs(Backs(ParsePipe(s).value, ParsePipe(s).rest).1);
  }

  // What the grammar has the parser takes ---------------------------------------------------------

  lemma {:induction false} ItemGive(s: string, i: Item, u: seq<Token>)
    requires GoodItem(i) && Lex(s).0 == ItemTokens(i) + u && Follows(u)
    ensures var r := ParseExec(s); r.Ok? && r.value == ItemMeans(i) && Reads(s, ItemTokens(i), r.rest)
    decreases i
  {
    hide ParseLine, ParseExec, ParseRedirs, Reads, Lex, Wrap, Around, GetToken, Skip, PiecesTokens, Reds, GoodPiece;
    if i.Simple? {
      SimpleGive(s, i.pieces, u);
    } else {
      var inner, outer := LineTokens(i.line), PiecesTokens(i.redirs);
      var m := GetToken(Skip(s)).1;
      GroupTokens(i, u);
      BlockStep(s);
      ReadsRest(s, [Sym('(')], m, inner + ([Sym(')')] + (outer + u)));
      LineGive(m, i.line, [Sym(')')] + (outer + u));
      var m1 := ParseLine(m).rest;
      ReadsRest(m, inner, m1, [Sym(')')] + (outer + u));
      SymStep(m1, ')');
      var m2 := GetToken(Skip(m1)).1;
      ReadsRest(m1, [Sym(')')], m2, outer + u);
      RedirsGive(m2, i.redirs, u);
      WrapIs(LineMeans(i.line), i.redirs);
      ReadsMore(s, [Sym('(')], m, inner, m1);
      ReadsMore(s, [Sym('(')] + inner, m1, [Sym(')')], m2);
      ReadsMore(s, [Sym('(')] + inner + [Sym(')')], m2, outer, ParseRedirs(m2).rest);
    }
  }

  lemma GroupTokens(i: Item, u: seq<Token>)
    requires i.Group?
    ensures ItemTokens(i) + u == [Sym('(')] + (LineTokens(i.line) + ([Sym(')')] + (PiecesTokens(i.redirs) + u)))
  {
    hide LineTokens, PiecesTokens;
  }

  /** What may stand behind the items joined by "|". */
  predicate Closes(u: seq<Token>) {
    u == [] || u[0] == Sym(')') || u[0] == Sym('&') || u[0] == Sym(';')
  }

  lemma {:induction false} PipeGive(s: string, p: Pipeline, u: seq<Token>)
    requires GoodPipe(p) && Lex(s).0 == PipeTokens(p) + u && Closes(u)
    ensures var r := ParsePipe(s); r.Ok? && r.value == PipeMeans(p) && Reads(s, PipeTokens(p), r.rest)
    decreases p
  {
    hide ParseLine, ParseExec, ParsePipe, Reads, Lex, GetToken, Skip, ItemTokens, GoodItem, ItemMeans;
    if p.One? {
      ItemGive(s, p.item, u);
      var m := ParseExec(s).rest;
      ReadsRest(s, ItemTokens(p.item), m, u);
      PipeStep(s);
      ReadsNone(m);
      ReadsMore(s, ItemTokens(p.item), m, [], Skip(m));
      assert ItemTokens(p.item) + [] == ItemTokens(p.item);
    } else {
      var first, more := ItemTokens(p.item), PipeTokens(p.rest);
      Regroup3(first, [Sym('|')], more);
      Regroup3(first, [Sym('|')] + more, u);
      Regroup3([Sym('|')], more, u);
      ItemGive(s, p.item, [Sym('|')] + more + u);
      var m := ParseExec(s).rest;
      ReadsRest(s, first, m, [Sym('|')] + more + u);
      PipeStep(s);
      SymStep(m, '|');
      var m1 := GetToken(Skip(m)).1;
      ReadsRest(m, [Sym('|')], m1, more + u);
      PipeGive(m1, p.rest, u);
      ReadsMore(s, first, m, [Sym('|')], m1);
      ReadsMore(s, first + [Sym('|')], m1, more, ParsePipe(s).rest);
    }
  }

  lemma {:induction false} InBackMore(c: Cmd, n: nat)
    ensures InBack(Back(c), n) == InBack(c, n + 1)
  {
    if n > 0 {
      InBackMore(c, n - 1);
    }
  }

  predicate NoAmp(u: seq<Token>) {
    u == [] || u[0] != Sym('&')
  }

  lemma {:induction false} AmpsGive(c: Cmd, s: string, n: nat, u: seq<Token>)
    requires Lex(s).0 == Amps(n) + u && NoAmp(u)
    ensures var r := Backs(c, s); r.0 == InBack(c, n) && Reads(s, Amps(n), r.1)
    decreases n
  {
    hide Backs, Reads, Lex, GetToken, Skip;
    BacksStep(c, s);
    if n == 0 {
      assert Amps(0) + u == u;
      ReadsNone(s);
    } else {
      var m := GetToken(Skip(s)).1;
      assert Amps(n) + u == [Sym('&')] + (Amps(n - 1) + u);
      SymStep(s, '&');
      ReadsRest(s, [Sym('&')], m, Amps(n - 1) + u);
      AmpsGive(Back(c), m, n - 1, u);
      InBackMore(c, n - 1);
      ReadsMore(s, [Sym('&')], m, Amps(n - 1), Backs(c, s).1);
    }
  }

  /** What may stand behind a line. */
  predicate Over(u: seq<Token>) {
    u == [] || u[0] == Sym(')')
  }

  lemma LineParts(l: Line, u: seq<Token>)
    requires Over(u)
    ensures LineTokens(l) + u == PipeTokens(l.pipe) + (Amps(l.amps) + (MoreTokens(l.more) + u))
    ensures NoAmp(MoreTokens(l.more) + u) && Closes(Amps(l.amps) + (MoreTokens(l.more) + u))
  {
    var first, amps, more := PipeTokens(l.pipe), Amps(l.amps), MoreTokens(l.more);
    hide PipeTokens;
    Regroup3(first, amps, more);
    Regroup3(first, amps + more, u);
    Regroup3(amps, more, u);
    assert l.more.Nothing? ==> more + u == u;
    assert l.amps == 0 ==> amps + (more + u) == more + u;
  }

  lemma {:induction false} LineGive(s: string, l: Line, u: seq<Token>)
    requires GoodLine(l) && Lex(s).0 == LineTokens(l) + u && Over(u)
    ensures var r := ParseLine(s); r.Ok? && r.value == LineMeans(l) && Reads(s, LineTokens(l), r.rest)
    decreases l
  {
    hide ParseLine, ParsePipe, Backs, Reads, Lex, GetToken, Skip, PipeTokens, GoodPipe, PipeMeans, Amps, InBack;
    var first, amps := PipeTokens(l.pipe), Amps(l.amps);
    LineParts(l, u);
    PipeGive(s, l.pipe, amps + (MoreTokens(l.more) + u));
    var m := ParsePipe(s).rest;
    ReadsRest(s, first, m, amps + (MoreTokens(l.more) + u));
    AmpsGive(ParsePipe(s).value, m, l.amps, MoreTokens(l.more) + u);
    var m1 := Backs(ParsePipe(s).value, m).1;
    ReadsRest(m, amps, m1, MoreTokens(l.more) + u);
    ReadsMore(s, first, m, amps, m1);
    LineStep(s);
    if l.more.Nothing? {
      assert MoreTokens(l.more) + u == u && first + amps + [] == first + amps;
      ReadsNone(m1);
      ReadsMore(s, first + amps, m1, [], Skip(m1));
    } else {
      var more := LineTokens(l.more.line);
      assert MoreTokens(l.more) + u == [Sym(';')] + (more + u);
      SymStep(m1, ';');
      var m2 := GetToken(Skip(m1)).1;
      ReadsRest(m1, [Sym(';')], m2, more + u);
      LineGive(m2, l.more.line, u);
      ReadsMore(m1, [Sym(';')], m2, more, ParseLine(s).rest);
      ReadsMore(s, first + amps, m1, MoreTokens(l.more), ParseLine(s).rest);
    }
  }

  // What the parser takes the grammar has ---------------------------------------------------------

  lemma PipeOk(s: string)
    ensures ParsePipe(s).Ok? ==> ParseExec(s).Ok?
    ensures ParseLine(s).Ok? ==> ParsePipe(s).Ok?
  {
    hide ParseExec, Backs;
  }

  lemma {:induction false} ItemCome(s: string) returns (i: Item)
    requires ParseExec(s).Ok?
    ensures GoodItem(i) && ParseExec(s).value == ItemMeans(i) && Reads(s, ItemTokens(i), ParseExec(s).rest)
    decreases |s|, 0
  {
    hide ParseLine, ParseExec, ParseRedirs, Reads, Lex, Wrap, Around, GetToken;
    hide Skip, Peek, PiecesTokens, Reds, GoodPiece;
    NextIs(s);
    if !Peek(s, "(") {
      var ps := SimpleCome(s);
      i := Simple(ps);
    } else {
      BlockStep(s);
      var m := GetToken(Skip(s)).1;
      var line := LineCome(m);
      var m1 := ParseLine(m).rest;
      SymStep(m1, ')');
      var m2 := GetToken(Skip(m1)).1;
      var rs := RedirsCome(m2);
      i := Group(line, rs);
      WrapIs(LineMeans(line), rs);
      ReadsMore(s, [Sym('(')], m, LineTokens(line), m1);
      ReadsMore(s, [Sym('(')] + LineTokens(line), m1, [Sym(')')], m2);
      ReadsMore(s, [Sym('(')] + LineTokens(line) + [Sym(')')], m2, PiecesTokens(rs), ParseRedirs(m2).rest);
    }
  }

  lemma {:induction false} PipeCome(s: string) returns (p: Pipeline)
    requires ParsePipe(s).Ok?
    ensures GoodPipe(p) && ParsePipe(s).value == PipeMeans(p) && Reads(s, PipeTokens(p), ParsePipe(s).rest)
    decreases |s|, 1
  {
    hide ParseExec, ParsePipe, Reads, Lex, GetToken, Skip, ItemTokens, GoodItem, ItemMeans;
    PipeOk(s);
    PipeStep(s);
    var i := ItemCome(s);
    var m := ParseExec(s).rest;
    if !At(m, Sym('|')) {
      p := One(i);
      ReadsNone(m);
      ReadsMore(s, ItemTokens(i), m, [], Skip(m));
      assert ItemTokens(i) + [] == ItemTokens(i);
    } else {
      SymStep(m, '|');
      var m1 := GetToken(Skip(m)).1;
      var rest := PipeCome(m1);
      p := Bar(i, rest);
      ReadsMore(s, ItemTokens(i), m, [Sym('|')], m1);
      ReadsMore(s, ItemTokens(i) + [Sym('|')], m1, PipeTokens(rest), ParsePipe(s).rest);
    }
  }

  lemma {:induction false} AmpsCome(c: Cmd, s: string) returns (n: nat)
    ensures var r := Backs(c, s); r.0 == InBack(c, n) && Reads(s, Amps(n), r.1)
    decreases |s|
  {
    hide Backs, Reads, Lex, GetToken, Skip;
    BacksStep(c, s);
    if !At(s, Sym('&')) {
      n := 0;
      ReadsNone(s);
    } else {
      SymStep(s, '&');
      var m := GetToken(Skip(s)).1;
      var k := AmpsCome(Back(c), m);
      n := k + 1;
      InBackMore(c, k);
      ReadsMore(s, [Sym('&')], m, Amps(k), Backs(c, s).1);
    }
  }

  lemma {:induction false} LineCome(s: string) returns (l: Line)
    requires ParseLine(s).Ok?
    ensures GoodLine(l) && ParseLine(s).value == LineMeans(l) && Reads(s, LineTokens(l), ParseLine(s).rest)
    decreases |s|, 2
  {
    hide ParseLine, ParsePipe, Backs, Reads, Lex, GetToken, Skip, PipeTokens, GoodPipe, PipeMeans, Amps, InBack;
    PipeOk(s);
    LineStep(s);
    var p := PipeCome(s);
    var m := ParsePipe(s).rest;
    var n := AmpsCome(PipeMeans(p), m);
    var m1 := Backs(PipeMeans(p), m).1;
    ReadsMore(s, PipeTokens(p), m, Amps(n), m1);
    if !At(m1, Sym(';')) {
      l := Line(p, n, Nothing);
      ReadsNone(m1);
      ReadsMore(s, PipeTokens(p) + Amps(n), m1, [], Skip(m1));
    } else {
      SymStep(m1, ';');
      var m2 := GetToken(Skip(m1)).1;
      var more := LineCome(m2);
      l := Line(p, n, Then(more));
      ReadsMore(m1, [Sym(';')], m2, LineTokens(more), ParseLine(s).rest);
      ReadsMore(s, PipeTokens(p) + Amps(n), m1, MoreTokens(l.more), ParseLine(s).rest);
    }
  }

  // Spelling and spacing --------------------------------------------------------------------------

  predicate NulFree(s: string) {
    forall i | 0 <= i < |s| :: s[i] != '\0'
  }

  predicate GoodToken(t: Token) {
    match t
    case End => false
    case Sym(c) => c in "<|>&;()"
    case Append => true
    case Word(w) => Spelled(w)
  }

  predicate GoodTokens(toks: seq<Token>) {
    forall i | 0 <= i < |toks| :: GoodToken(toks[i])
  }

  lemma {:induction false} SkipBlanks(g: string, x: string)
    requires Blanks(g)
    ensures Skip(g + x) == Skip(x)
  {
    if g == [] {
      assert g + x == x;
    } else {
      assert (g + x)[1..] == g[1..] + x;
      SkipBlanks(g[1..], x);
    }
  }

  /** Nothing that would belong to the token comes next. */
  predicate Apart(t: Token, rest: string) {
    rest == [] || !((t.Word? && Letter(rest[0])) || (t == Sym('>') && rest[0] == '>'))
  }

  lemma GetWord(w: string, rest: string)
    requires Spelled(w) && (rest == [] || !Letter(rest[0]))
    ensures GetToken(w + rest) == (Word(w), Skip(rest))
  {
    WordToken(w, rest);
  }

  lemma GetSymbol(t: Token, rest: string)
    requires GoodToken(t) && !t.Word? && Apart(t, rest)
    ensures GetToken(Spelling(t) + rest) == (t, Skip(rest))
  {
    var x := Spelling(t) + rest;
    assert x[0] == Spelling(t)[0] && Skip(x) == x && x[|Spelling(t)|..] == rest;
    if t.Append? {
      assert x[1] == '>';
    } else if t == Sym('>') && rest != [] {
      assert x[1] == rest[0];
    }
  }

  lemma GetSpelled(g: string, t: Token, rest: string)
    requires Blanks(g) && GoodToken(t) && Apart(t, rest)
    ensures GetToken(g + (Spelling(t) + rest)) == (t, Skip(rest))
  {
    hide GetToken, Skip;
    var x := Spelling(t) + rest;
    SkipBlanks(g, x);
    LexSkip(x);
    LexSkip(g + x);
    if t.Word? {
      GetWord(t.w, rest);
    } else {
      GetSymbol(t, rest);
    }
  }

  /** The text behind the first token does not run into it. */
  lemma NextApart(toks: seq<Token>, gaps: seq<string>)
    requires toks != [] && Spaced(toks, gaps) && GoodTokens(toks)
    ensures Spaced(toks[1..], gaps[1..]) && Apart(toks[0], Typed(toks[1..], gaps[1..]))
  {
    var rest := Typed(toks[1..], gaps[1..]);
    forall i | 0 < i < |toks[1..]| && Merges(toks[1..][i - 1], toks[1..][i]) ensures gaps[1..][i] != [] {
      assert toks[1..][i - 1] == toks[i] && toks[1..][i] == toks[i + 1];
    }
    if gaps[1] != [] {
      assert rest[0] == gaps[1][0] && Blank(rest[0]);
    } else if |toks| > 1 {
      assert GoodToken(toks[1]) && !Merges(toks[0], toks[1]);
      assert rest[0] == Spelling(toks[1])[0];
    }
  }

  /** Tokens typed with any spacing are the tokens read. */
  lemma {:induction false} TypedLexes(toks: seq<Token>, gaps: seq<string>)
    requires Spaced(toks, gaps) && GoodTokens(toks)
    ensures Lex(Typed(toks, gaps)) == (toks, [])
    decreases |toks|
  {
    hide Lex, GetToken, Skip;
    if toks == [] {
      BlankLexes(gaps[0]);
    } else {
      var rest := Typed(toks[1..], gaps[1..]);
      NextApart(toks, gaps);
      GetSpelled(gaps[0], toks[0], rest);
      TypedLexes(toks[1..], gaps[1..]);
      LexSkip(rest);
      LexOne(Typed(toks, gaps));
      assert GoodToken(toks[0]);
      assert [toks[0]] + toks[1..] == toks;
    }
  }

  lemma LexOne(s: string)
    ensures var g := GetToken(s); Lex(s) == if g.0.End? then ([], g.1) else ([g.0] + Lex(g.1).0, Lex(g.1).1)
  {
    hide GetToken;
  }

  lemma BlankLexes(g: string)
    requires Blanks(g)
    ensures Lex(g) == ([], [])
  {
    SkipBlanks(g, []);
    assert g + [] == g;
  }

  /** What skip leaves is what was there behind blanks. */
  lemma {:induction false} SkipIs(s: string) returns (g: string)
    ensures Blanks(g) && s == g + Skip(s)
  {
    if s != [] && White(s[0]) {
      g := SkipIs(s[1..]);
      g := [s[0]] + g;
    } else {
      g := [];
    }
  }

  /** A token read is its spelling, after blanks. */
  lemma SpelledOut(s: string) returns (g: string, rest: string)
    requires NulFree(s) && !GetToken(s).0.End?
    ensures var t := GetToken(s).0;
      Blanks(g) && GoodToken(t) && s == g + (Spelling(t) + rest) && GetToken(s).1 == Skip(rest) && Apart(t, rest)
  {
    g := SkipIs(s);
    var t, tok := Skip(s), GetToken(s).0;
    rest := t[|Spelling(tok)|..];
    assert t == Spelling(tok) + rest;
    assert rest != [] ==> rest[0] == t[|Spelling(tok)|];
  }

  /** Every text is its tokens with some spacing. */
  lemma {:induction false} LexedTyped(s: string) returns (gaps: seq<string>)
    requires NulFree(s)
    ensures GoodTokens(Lex(s).0) && Spaced(Lex(s).0, gaps) && s == Typed(Lex(s).0, gaps) && Lex(s).1 == []
    decreases |s|
  {
    hide Lex, GetToken, Skip;
    LexOne(s);
    if GetToken(s).0.End? {
      OnlyBlanks(s);
      gaps := [s];
    } else {
      var t := GetToken(s).0;
      var g, rest := SpelledOut(s);
      TokenTakes(t);
      assert NulFree(rest) by {
        forall i | 0 <= i < |rest| ensures rest[i] != '\0' {
          assert rest[i] == s[|g| + |Spelling(t)| + i];
        }
      }
      var more := LexedTyped(rest);
      LexSkip(rest);
      gaps := [g] + more;
      var toks := Lex(s).0;
      assert toks == [t] + Lex(rest).0 && toks[1..] == Lex(rest).0 && gaps[1..] == more;
      FirstGap(t, Lex(rest).0, more);
    }
  }

  lemma TokenTakes(t: Token)
    requires GoodToken(t)
    ensures |Spelling(t)| > 0
  {
  }

  lemma NulFreeBehind(g: string, t: string)
    requires NulFree(g + t)
    ensures t == [] || t[0] != '\0'
  {
    assert t != [] ==> (g + t)[|g|] == t[0];
  }

  lemma OnlyBlanks(s: string)
    requires NulFree(s) && GetToken(s).0.End?
    ensures Blanks(s) && GetToken(s).1 == []
  {
    var g := SkipIs(s);
    NulFreeBehind(g, Skip(s));
    assert Skip(s) == [] && g + [] == g;
  }

  lemma RunsInto(t: Token, next: Token, rest: string)
    requires GoodToken(next) && Merges(t, next)
    ensures !Apart(t, [] + (Spelling(next) + rest))
  {
    assert ([] + (Spelling(next) + rest))[0] == Spelling(next)[0];
  }

  /** With no blank between, the next token does not run into this one. */
  lemma FirstGap(t: Token, toks: seq<Token>, gaps: seq<string>)
    requires Spaced(toks, gaps) && GoodTokens(toks) && Apart(t, Typed(toks, gaps))
    ensures toks != [] && Merges(t, toks[0]) ==> gaps[0] != []
    ensures forall g | Blanks(g) :: Spaced([t] + toks, [g] + gaps)
  {
    if toks != [] && Merges(t, toks[0]) && gaps[0] == [] {
      assert GoodToken(toks[0]);
      RunsInto(t, toks[0], Typed(toks[1..], gaps[1..]));
    }
    forall g | Blanks(g) ensures Spaced([t] + toks, [g] + gaps) {
      var ts, gs := [t] + toks, [g] + gaps;
      forall i | 0 < i < |ts| && Merges(ts[i - 1], ts[i]) ensures gs[i] != [] {
        if i > 1 {
          assert ts[i - 1] == toks[i - 2] && ts[i] == toks[i - 1];
        }
      }
    }
  }

  // The parser is the grammar ---------------------------------------------------------------------

  lemma {:induction false} PiecesGood(ps: seq<Piece>)
    requires Pieces(ps)
    ensures GoodTokens(PiecesTokens(ps))
    decreases |ps|
  {
    if ps != [] {
      PiecesGood(ps[1..]);
    }
  }

  lemma {:induction false} AmpsGood(n: nat)
    ensures GoodTokens(Amps(n))
  {
    if n > 0 {
      AmpsGood(n - 1);
    }
  }

  lemma {:induction false} ItemTokensGood(i: Item)
    requires GoodItem(i)
    ensures GoodTokens(ItemTokens(i))
    decreases i
  {
    if i.Simple? {
      PiecesGood(i.pieces);
    } else {
      TokensGood(i.line);
      PiecesGood(i.redirs);
    }
  }

  lemma {:induction false} PipeTokensGood(p: Pipeline)
    requires GoodPipe(p)
    ensures GoodTokens(PipeTokens(p))
    decreases p
  {
    ItemTokensGood(p.item);
    if p.Bar? {
      PipeTokensGood(p.rest);
    }
  }

  lemma {:induction false} TokensGood(l: Line)
    requires GoodLine(l)
    ensures GoodTokens(LineTokens(l))
    decreases l
  {
    hide GoodToken;
    PipeTokensGood(l.pipe);
    AmpsGood(l.amps);
    if l.more.Then? {
      TokensGood(l.more.line);
      assert GoodToken(Sym(';')) by { SemiGood(); }
    }
  }

  lemma SemiGood()
    ensures GoodToken(Sym(';'))
  {
  }

  /** A line typed with any spacing is parsed as the command it means. */
  lemma {:induction false} TypedParses(l: Line, gaps: seq<string>)
    requires GoodLine(l) && Spaced(LineTokens(l), gaps)
    ensures ParseCmd(Typed(LineTokens(l), gaps)) == Ok(LineMeans(l), [])
  {
    hide ParseLine, Lex, LineTokens, LineMeans, GoodLine, Typed;
    var s := Typed(LineTokens(l), gaps);
    TokensGood(l);
    TypedLexes(LineTokens(l), gaps);
    assert LineTokens(l) + [] == LineTokens(l);
    LineGive(s, l, []);
    ReadsRest(s, LineTokens(l), ParseLine(s).rest, []);
    AllRead(ParseLine(s).rest);
  }

  lemma AllRead(s: string)
    ensures Lex(s) == ([], []) <==> Skip(s) == []
  {
    LexOne(s);
    LexSkip(s);
  }

  /** The line l, typed with these gaps, is s, and means c. */
  predicate Writes(l: Line, gaps: seq<string>, s: string, c: Cmd) {
    GoodLine(l) && Spaced(LineTokens(l), gaps) && s == Typed(LineTokens(l), gaps) && c == LineMeans(l)
  }

  /** The parser takes a text, as the command c, if and only if it is a line of the grammar that means c. */
  lemma {:induction false} ParsesIff(s: string, c: Cmd)
    requires NulFree(s)
    ensures ParseCmd(s) == Ok(c, []) <==> exists l, gaps :: Writes(l, gaps, s, c)
  {
    hide ParseLine, Lex, LineTokens, LineMeans, GoodLine, Typed, Spaced;
    if l, gaps :| Writes(l, gaps, s, c) {
      TypedParses(l, gaps);
    }
    if ParseCmd(s) == Ok(c, []) {
      var l := LineCome(s);
      var rest := ParseLine(s).rest;
      AllRead(rest);
      var gaps := LexedTyped(s);
      assert LineTokens(l) + [] == LineTokens(l);
      assert Writes(l, gaps, s, c);
    }
  }
}
